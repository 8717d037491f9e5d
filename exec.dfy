/** Program loading in fs/exec.c: counting the argument and environment
    vectors, copying their strings into the 128 KB argument space below
    the top of the new data segment, building the argv/envp tables on the
    new stack, the new segment limits, and the checks do_execve makes on
    the file, its a.out header and a "#!" script line.

    User memory is shown by value: a pointer array as the words it holds,
    a string as its bytes without the terminating NUL, the stack words
    create_tables writes as a map from address to value. */
module Execve {
  import opened Util
  import opened FsDefs
  import opened Proc
  import opened AOut
  import opened Errno
  import Memory
  import Driver

  /** MAX_ARG_PAGES: pages of argument and environment space. */
  const MAX_ARG_PAGES: int := 32
  const PAGE: int := 4096
  /** PAGE_SIZE * MAX_ARG_PAGES: 128 KB. */
  const ARG_SPACE: int := PAGE * MAX_ARG_PAGES
  /** The data segment limit change_ldt sets: 64 MB. */
  const DATA_LIMIT: int := 0x400_0000
  /** The largest text + data + bss do_execve accepts. */
  const MAX_IMAGE: int := 0x300_0000

  // ---------------------------------------------------------------------
  // count

  /** The index of the first NULL in a pointer array. */
  function FirstNull(ptrs: seq<Word>): (r: nat)
    requires 0 in ptrs
    ensures r < |ptrs| && ptrs[r] == 0 && forall j :: 0 <= j < r ==> ptrs[j] != 0
  {
    if ptrs[0] == 0 then 0 else FirstNull(ptrs[1..]) + 1
  }

  /** count(argv): the entries before the terminating NULL; 0 for a NULL
      array. ptrs are the words argv points to. */
  method Count(argv: Word, ptrs: seq<Word>) returns (n: nat)
    requires argv == 0 || 0 in ptrs
    ensures argv == 0 ==> n == 0
    ensures argv != 0 ==> n < |ptrs| && ptrs[n] == 0 && forall j :: 0 <= j < n ==> ptrs[j] != 0
  {
    n := 0;
    if argv == 0 {
      return;
    }
    while ptrs[n] != 0
      invariant n < |ptrs| && forall j :: 0 <= j < n ==> ptrs[j] != 0
      invariant FirstNull(ptrs) >= n
      decreases |ptrs| - n
    {
      n := n + 1;
    }
  }

  // ---------------------------------------------------------------------
  // copy_strings

  /** The argument space: page[], the physical page holding each 4 KB
      (0 while none), and the bytes written so far by their offset in
      the 128 KB; phys supplies get_free_page. */
  datatype Space = Space(pages: seq<Word>, bytes: map<int, Byte>, phys: Memory.Phys)

  predicate SpaceOk(sp: Space)
  {
    |sp.pages| == MAX_ARG_PAGES && Memory.PhysOk(sp.phys)
  }

  /** do_execve's empty space: no pages. */
  function EmptySpace(phys: Memory.Phys): (r: Space)
    requires Memory.PhysOk(phys)
    ensures SpaceOk(r)
  {
    Space(seq(MAX_ARG_PAGES, _ => 0), map[], phys)
  }

  /** How one byte store ends: stored; no page could be had; or the
      offset's page index lies outside page[] (the C then reads and writes
      past the array). */
  datatype Put = Stored | NoPage | Outside

  /** Store byte b at offset q, taking a page from get_free_page when
      page[q / PAGE_SIZE] is still 0. */
  function PutByte(sp: Space, q: Word, b: Byte): (r: (Put, Space))
    requires SpaceOk(sp)
    ensures SpaceOk(r.1)
  {
    var i := q / PAGE;
    if i >= MAX_ARG_PAGES then (Outside, sp)
    else if sp.pages[i] != 0 then (Stored, sp.(bytes := sp.bytes[q := b]))
    else
      var (s1, pg) := Memory.GetFree(sp.phys);
      if pg == 0 then (NoPage, sp.(phys := s1))
      else (Stored, Space(sp.pages[i := pg], sp.bytes[q := b], s1))
  }

  /** The inner loop of copy_strings: the first n bytes of full, stored
      backwards below p from byte n - 1, the pointer decrementing as an unsigned long. */
  function CopyBack(sp: Space, p: Word, full: seq<Byte>, n: nat): (r: (Put, Word, Space))
    requires SpaceOk(sp) && n <= |full|
    ensures SpaceOk(r.2)
    decreases n
  {
    if n == 0 then (Stored, p, sp)
    else
      var q := ToWord(p - 1);
      var (o, sp1) := PutByte(sp, q, full[n - 1]);
      if o != Stored then (o, q, sp1) else CopyBack(sp1, q, full, n - 1)
  }

  /** How copy_strings ends: it returns (the int is the value, 0 on
      failure), or it runs off page[] (undefined in the C), or it panics. */
  datatype Ends = Returns | Overrun | Panics(msg: string)

  /** The string with its NUL. */
  function Full(s: seq<Byte>): seq<Byte>
  {
    s + [0]
  }

  /** The rest of copy_strings after the current string's last n bytes,
      with k strings still to go. */
  function Finish(sp: Space, p: Word, full: seq<Byte>, n: nat, args: seq<Option<seq<Byte>>>, k: nat): (r: (Ends, Word, Space))
    requires SpaceOk(sp) && n <= |full| && k <= |args|
    ensures SpaceOk(r.2)
    decreases k, 2
  {
    var (o, p1, sp1) := CopyBack(sp, p, full, n);
    if o == NoPage then (Returns, 0, sp1)
    else if o == Outside then (Overrun, p1, sp1)
    else CopyFrom(sp1, args, k, p1)
  }

  /** copy_strings's outer loop, from string k - 1 down to string 0. The
      room check `p - len < 0` compares unsigned values and never holds
      (fs/exec.c:145), so a string longer than p is copied on past offset
      0. */
  function CopyFrom(sp: Space, args: seq<Option<seq<Byte>>>, k: int, p: Word): (r: (Ends, Word, Space))
    requires SpaceOk(sp) && k <= |args|
    ensures SpaceOk(r.2)
    decreases k, 1
  {
    if k <= 0 then (Returns, p, sp)
    else match args[k - 1]
      case None => (Panics("argc is wrong"), p, sp)
      case Some(s) => Finish(sp, p, Full(s), |Full(s)|, args, k - 1)
  }

  /** copy_strings(argc, argv, page, p, from_kmem); args are the strings
      argv points to (None for NULL). */
  function CopyStrings(sp: Space, args: seq<Option<seq<Byte>>>, argc: int, p: Word): (r: (Ends, Word, Space))
    requires SpaceOk(sp) && argc <= |args|
    ensures SpaceOk(r.2)
  {
    if p == 0 then (Returns, 0, sp) else CopyFrom(sp, args, argc, p)
  }

  /** The strings with their NULs, in order. */
  function Flat(args: seq<Option<seq<Byte>>>, k: nat): (r: seq<Byte>)
    requires k <= |args| && forall j :: 0 <= j < k ==> args[j].Some?
  {
    if k == 0 then [] else Flat(args, k - 1) + Full(args[k - 1].value)
  }

  /** A byte at offset a as the space shows it (0 if never written). */
  function ByteAt(sp: Space, a: int): Byte
  {
    if a in sp.bytes then sp.bytes[a] else 0
  }

  /** The inner loop, when it does not run past offset 0: it never leaves
      page[], and unless a page is missing the first n bytes of full land
      at [p - n, p) in order and nothing else in the space changes. */
  lemma {:induction false} CopyBackLays(sp: Space, p: Word, full: seq<Byte>, n: nat)
    requires SpaceOk(sp) && n <= |full| && n <= p <= ARG_SPACE
    ensures var (o, p', sp') := CopyBack(sp, p, full, n);
      o != Outside &&
      (o == Stored ==>
        p' == p - n &&
        (forall a :: p - n <= a < p ==> ByteAt(sp', a) == full[a - p + n]) &&
        (forall a :: (a < p - n || p <= a) ==> ByteAt(sp', a) == ByteAt(sp, a)))
    decreases n
  {
    if n > 0 {
      var q := p - 1;
      PutByteMeans(sp, q, full[n - 1]);
      var (o, sp1) := PutByte(sp, q, full[n - 1]);
      if o == Stored {
        CopyBackLays(sp1, q, full, n - 1);
        var r := CopyBack(sp1, q, full, n - 1);
        assert CopyBack(sp, p, full, n) == r;
        if r.0 == Stored {
          forall a | p - n <= a < p
            ensures ByteAt(r.2, a) == full[a - p + n]
          {
            if a == q {
              assert ByteAt(r.2, a) == ByteAt(sp1, a);
            }
          }
        }
      }
    }
  }

  /** One store below p: inside page[] it either finds no page or puts b
      at q and changes no other byte. */
  lemma PutByteMeans(sp: Space, q: Word, b: Byte)
    requires SpaceOk(sp) && q < ARG_SPACE
    ensures var (o, sp1) := PutByte(sp, q, b);
      o != Outside &&
      (o == Stored ==> ByteAt(sp1, q) == b && forall a :: a != q ==> ByteAt(sp1, a) == ByteAt(sp, a))
  {
    assert q / PAGE < MAX_ARG_PAGES;
  }

  /** What copy_strings promises when there is room: every string is
      present and their total length with NULs fits below p. Then it does
      not overrun or panic, and it either returns 0 (no page could be had)
      or returns p less that total, with the strings laid out in argv
      order, each followed by its NUL, just below p; nothing above p or
      below the new p changes. */
  lemma {:induction false} CopyFromLays(sp: Space, args: seq<Option<seq<Byte>>>, k: nat, p: Word)
    requires SpaceOk(sp) && k <= |args| && (forall j :: 0 <= j < k ==> args[j].Some?)
    requires |Flat(args, k)| <= p <= ARG_SPACE
    ensures var (o, p', sp') := CopyFrom(sp, args, k, p); var f := Flat(args, k);
      o == Returns &&
      (p' == 0 || (p' == p - |f| &&
        (forall a :: p' <= a < p ==> ByteAt(sp', a) == f[a - p']) &&
        (forall a :: (a < p' || p <= a) ==> ByteAt(sp', a) == ByteAt(sp, a))))
    decreases k
  {
    if k > 0 {
      var full := Full(args[k - 1].value);
      var f := Flat(args, k);
      var g := Flat(args, k - 1);
      assert f == g + full;
      CopyBackLays(sp, p, full, |full|);
      var (o, p1, sp1) := CopyBack(sp, p, full, |full|);
      if o == Stored {
        CopyFromLays(sp1, args, k - 1, p1);
        var (o2, p2, sp2) := CopyFrom(sp1, args, k - 1, p1);
        if p2 != 0 {
          forall a | p2 <= a < p
            ensures ByteAt(sp2, a) == f[a - p2]
          {
            if a >= p1 {
              assert ByteAt(sp2, a) == ByteAt(sp1, a) == full[|full| - p + a];
            }
          }
        }
      }
    }
  }

  /** With every page present, a string longer than p does not make
      copy_strings return 0: the copy goes on below offset 0 and leaves
      page[] (fs/exec.c:145 compares unsigned values). */
  lemma LongStringOverruns(sp: Space, s: seq<Byte>, p: Word)
    requires SpaceOk(sp) && (forall i :: 0 <= i < MAX_ARG_PAGES ==> sp.pages[i] != 0)
    requires 0 < p <= ARG_SPACE && p < |s| + 1
    ensures CopyStrings(sp, [Some(s)], 1, p).0 == Overrun
  {
    var full := Full(s);
    AllPagesStore(sp, p, full, |full|, p);
  }

  /** With every page present, the first m stores below p all succeed and
      the next one, at offset 2^32 - 1, is outside page[]. */
  lemma {:induction false} AllPagesStore(sp: Space, p: Word, full: seq<Byte>, n: nat, m: nat)
    requires SpaceOk(sp) && (forall i :: 0 <= i < MAX_ARG_PAGES ==> sp.pages[i] != 0)
    requires n <= |full| && m == p && p <= ARG_SPACE && m < n
    ensures CopyBack(sp, p, full, n).0 == Outside
    decreases m
  {
    var q := ToWord(p - 1);
    if p == 0 {
      assert q == 0xFFFF_FFFF;
    } else {
      var (o, sp1) := PutByte(sp, q, full[n - 1]);
      assert o == Stored;
      AllPagesStore(sp1, q, full, n - 1, m - 1);
    }
  }

  /** Two copy_strings calls in a row, the second from where the first
      left off, copy like one call on both vectors, the second call's
      strings first: unless the first returned 0. */
  lemma {:induction false} CopyFromAppend(sp: Space, a: seq<Option<seq<Byte>>>, b: seq<Option<seq<Byte>>>, p: Word)
    requires SpaceOk(sp)
    requires var (o, p1, _) := CopyFrom(sp, a, |a|, p); o == Returns ==> p1 != 0
    ensures var (o, p1, sp1) := CopyFrom(sp, a, |a|, p);
      CopyFrom(sp, b + a, |b + a|, p) == if o == Returns then CopyFrom(sp1, b, |b|, p1) else (o, p1, sp1)
    decreases |a|
  {
    if |a| > 0 {
      var a' := a[..|a| - 1];
      assert (b + a)[|b + a| - 1] == a[|a| - 1];
      assert (b + a)[..|b + a| - 1] == b + a';
      match a[|a| - 1]
      case None =>
      case Some(s) =>
        var (o, p1, sp1) := CopyBack(sp, p, Full(s), |Full(s)|);
        if o == Stored {
          PrefixCopy(sp1, a, |a| - 1, p1);
          PrefixCopy(sp1, b + a, |b + a| - 1, p1);
          CopyFromAppend(sp1, a', b, p1);
        }
    } else {
      assert b + a == b;
    }
  }

  /** CopyFrom on the first k strings only looks at those. */
  lemma {:induction false} PrefixCopy(sp: Space, args: seq<Option<seq<Byte>>>, k: nat, p: Word)
    requires SpaceOk(sp) && k <= |args|
    ensures CopyFrom(sp, args, k, p) == CopyFrom(sp, args[..k], k, p)
    decreases k
  {
    if k > 0 {
      match args[k - 1]
      case None =>
      case Some(s) =>
        var (o, p1, sp1) := CopyBack(sp, p, Full(s), |Full(s)|);
        if o == Stored {
          PrefixCopy(sp1, args, k - 1, p1);
          PrefixCopy(sp1, args[..k], k - 1, p1);
          assert args[..k][..k - 1] == args[..k - 1];
        }
    }
  }

  /** A page index: the cached page pag serves offsets below p down to the
      start of p's page. */
  ghost predicate Cached(sp: Space, p: Word, offset: int, pag: int)
  {
    0 <= offset && (offset > 0 ==>
      offset == p % PAGE && p / PAGE < MAX_ARG_PAGES && |sp.pages| == MAX_ARG_PAGES &&
      pag == sp.pages[p / PAGE] && pag != 0)
  }

  /** copy_strings(argc, argv, page, p, from_kmem): walks the strings from
      the last, and stores each byte through the page pointer it looks up
      again only when p crosses into another page. */
  method CopyStringsLoop(sp0: Space, args: seq<Option<seq<Byte>>>, argc: int, p0: Word)
    returns (e: Ends, p: Word, sp: Space)
    requires SpaceOk(sp0) && argc <= |args|
    ensures (e, p, sp) == CopyStrings(sp0, args, argc, p0)
  {
    if p0 == 0 {
      return Returns, 0, sp0;
    }
    p, sp := p0, sp0;
    var offset := 0;
    var pag := 0;
    var k := argc;
    while k > 0
      invariant SpaceOk(sp) && k <= argc && Cached(sp, p, offset, pag)
      invariant CopyFrom(sp0, args, argc, p0) == CopyFrom(sp, args, k, p)
    {
      k := k - 1;
      if args[k].None? {
        return Panics("argc is wrong"), p, sp;
      }
      var full := Full(args[k].value);
      var len := |full|;
      while len > 0
        invariant SpaceOk(sp) && 0 <= len <= |full| && Cached(sp, p, offset, pag)
        invariant CopyFrom(sp0, args, argc, p0) == Finish(sp, p, full, len, args, k)
      {
        p := ToWord(p - 1);
        len := len - 1;
        offset := offset - 1;
        if offset < 0 {
          offset := p % PAGE;
          if p / PAGE >= MAX_ARG_PAGES {
            return Overrun, p, sp;
          }
          pag := sp.pages[p / PAGE];
          if pag == 0 {
            var (s1, pg) := Memory.GetFree(sp.phys);
            sp := sp.(phys := s1);
            if pg == 0 {
              return Returns, 0, sp;
            }
            sp := sp.(pages := sp.pages[p / PAGE := pg]);
            pag := pg;
          }
        }
        sp := sp.(bytes := sp.bytes[p := full[len]]);
      }
    }
    e := Returns;
  }

  // ---------------------------------------------------------------------
  // create_tables

  /** get_fs_byte on user memory given as bytes from address 0; 0 past them. */
  function Get(fs: seq<Byte>, q: int): Byte
  {
    if 0 <= q < |fs| then fs[q] else 0
  }

  /** The address just past the NUL that ends the string at q. */
  function NextString(fs: seq<Byte>, q: int): (r: int)
    requires q >= 0
    ensures r > q
    decreases |fs| - q
  {
    if Get(fs, q) == 0 then q + 1 else NextString(fs, q + 1)
  }

  /** The string at q is the bytes up to the first NUL from q. */
  lemma {:induction false} NextStringMeans(fs: seq<Byte>, q: nat)
    ensures var r := NextString(fs, q);
      Get(fs, r - 1) == 0 && forall a :: q <= a < r - 1 ==> Get(fs, a) != 0
    decreases |fs| - q
  {
    if Get(fs, q) != 0 {
      NextStringMeans(fs, q + 1);
    }
  }

  /** The address of the i-th string from q. */
  function Starts(fs: seq<Byte>, q: int, i: nat): (r: int)
    requires q >= 0
    ensures r >= q
  {
    if i == 0 then q else NextString(fs, Starts(fs, q, i - 1))
  }

  /** A long of user memory (0 where create_tables wrote nothing). */
  function Long(words: map<int, int>, a: int): int
  {
    if a in words then words[a] else 0
  }

  /** `while (get_fs_byte(p++))`: skip the string at q. */
  method SkipString(fs: seq<Byte>, q: int) returns (r: int)
    requires q >= 0
    ensures r == NextString(fs, q)
  {
    r := q;
    while Get(fs, r) != 0
      invariant q <= r && NextString(fs, r) == NextString(fs, q)
      decreases |fs| - r
    {
      r := r + 1;
    }
    r := r + 1;
  }

  /** Starting k + j strings from q is starting j strings from the k-th. */
  lemma {:induction false} StartsAdd(fs: seq<Byte>, q: nat, k: nat, j: nat)
    ensures Starts(fs, Starts(fs, q, k), j) == Starts(fs, q, k + j)
    decreases j
  {
    if j > 0 {
      StartsAdd(fs, q, k, j - 1);
    }
  }

  /** The address of entry i of a table of longs at base. */
  function Slot(base: int, i: int): int
  {
    base + 4 * i
  }

  /** Memory w with pointers to the first k strings from q written one
      after another from address at. */
  function Table(w: map<int, int>, at: int, fs: seq<Byte>, q: nat, k: nat): map<int, int>
  {
    if k == 0 then w else Table(w, at, fs, q, k - 1)[Slot(at, k - 1) := Starts(fs, q, k - 1)]
  }

  /** What Table leaves: entry i points to string i, and memory outside
      the k entries is as it was. */
  lemma {:induction false} TableMeans(w: map<int, int>, at: int, fs: seq<Byte>, q: nat, k: nat)
    ensures forall i {:trigger Slot(at, i)} :: 0 <= i < k ==> Long(Table(w, at, fs, q, k), Slot(at, i)) == Starts(fs, q, i)
    ensures forall a :: (a < at || Slot(at, k) <= a) ==> Long(Table(w, at, fs, q, k), a) == Long(w, a)
    decreases k
  {
    if k > 0 {
      TableMeans(w, at, fs, q, k - 1);
    }
  }

  /** One of create_tables's loops: n pointers from address at on, each to
      the next string from q, then a NULL; it returns the address past the
      last string. */
  method FillTable(fs: seq<Byte>, words0: map<int, int>, at: int, q: nat, n: nat)
    returns (words: map<int, int>, q': nat)
    ensures q' == Starts(fs, q, n)
    ensures forall i {:trigger Slot(at, i)} :: 0 <= i < n ==> Long(words, Slot(at, i)) == Starts(fs, q, i)
    ensures Long(words, Slot(at, n)) == 0
    ensures forall a :: (a < at || Slot(at, n) < a) ==> Long(words, a) == Long(words0, a)
  {
    words, q' := words0, q;
    var k := 0;
    while k < n
      invariant 0 <= k <= n && q' == Starts(fs, q, k) && words == Table(words0, at, fs, q, k)
    {
      words := words[Slot(at, k) := q'];
      q' := SkipString(fs, q');
      k := k + 1;
    }
    TableMeans(words0, at, fs, q, n);
    words := words[Slot(at, n) := 0];
  }

  /** create_tables(p, argc, envc): below p rounded down to 4 it builds
      envp[envc + 1] and, under it, argv[argc + 1], each entry pointing to
      the next string from p and each ending in NULL, then pushes envp,
      argv and argc; it returns the stack pointer at argc. */
  method CreateTables(fs: seq<Byte>, words0: map<int, int>, p: Word, argc: nat, envc: nat)
    returns (sp: int, words: map<int, int>)
    ensures var top := p - p % 4; var envp := top - 4 * (envc + 1); var argv := envp - 4 * (argc + 1);
      sp == argv - 12 &&
      Long(words, sp) == argc && Long(words, sp + 4) == argv && Long(words, sp + 8) == envp &&
      (forall i {:trigger Slot(argv, i)} :: 0 <= i < argc ==> Long(words, Slot(argv, i)) == Starts(fs, p, i)) &&
      Long(words, Slot(argv, argc)) == 0 &&
      (forall j {:trigger Slot(envp, j)} :: 0 <= j < envc ==> Long(words, Slot(envp, j)) == Starts(fs, p, argc + j)) &&
      Long(words, Slot(envp, envc)) == 0 &&
      (forall a :: (a < sp || top <= a) ==> Long(words, a) == Long(words0, a))
  {
    var top := p - p % 4;
    var envp := top - 4 * (envc + 1);
    var argv := envp - 4 * (argc + 1);
    sp := argv - 12;
    var w1 := words0[sp + 8 := envp][sp + 4 := argv][sp := argc];
    var w2, q := FillTable(fs, w1, argv, p, argc);
    assert Slot(argv, argc) < envp;
    var w3, _ := FillTable(fs, w2, envp, q, envc);
    words := w3;
    forall j | 0 <= j < envc
      ensures Long(words, Slot(envp, j)) == Starts(fs, p, argc + j)
    {
      StartsAdd(fs, p, argc, j);
    }
  }

  /** Strings laid out as copy_strings lays them are found again by
      create_tables: the i-th pointer is the start of the i-th string. */
  lemma {:induction false} StartsOfFlat(fs: seq<Byte>, q: nat, args: seq<Option<seq<Byte>>>, k: nat, i: nat)
    requires k <= |args| && (forall j :: 0 <= j < k ==> args[j].Some? && 0 !in args[j].value)
    requires q + |Flat(args, k)| <= |fs| && fs[q..q + |Flat(args, k)|] == Flat(args, k)
    requires i <= k
    ensures Starts(fs, q, i) == q + |Flat(args, i)|
    decreases i
  {
    if i > 0 {
      StartsOfFlat(fs, q, args, k, i - 1);
      var s := args[i - 1].value;
      var at := q + |Flat(args, i - 1)|;
      FlatPrefix(args, i, k);
      assert Flat(args, i) == Flat(args, i - 1) + Full(s);
      forall a | at <= a < at + |s|
        ensures Get(fs, a) == s[a - at]
      {
        assert fs[q..q + |Flat(args, k)|][a - q] == Flat(args, k)[a - q];
        assert Flat(args, k)[a - q] == Flat(args, i)[a - q];
      }
      assert fs[q..q + |Flat(args, k)|][at + |s| - q] == Flat(args, k)[at + |s| - q];
      assert Flat(args, k)[at + |s| - q] == Flat(args, i)[at + |s| - q];
      SkipIs(fs, at, s);
    }
  }

  lemma {:induction false} FlatPrefix(args: seq<Option<seq<Byte>>>, i: nat, k: nat)
    requires i <= k <= |args| && forall j :: 0 <= j < k ==> args[j].Some?
    ensures |Flat(args, i)| <= |Flat(args, k)| && Flat(args, k)[..|Flat(args, i)|] == Flat(args, i)
    decreases k
  {
    if k > i {
      FlatPrefix(args, i, k - 1);
    }
  }

  /** Skipping a string s with no NUL in it followed by a NUL. */
  lemma {:induction false} SkipIs(fs: seq<Byte>, at: nat, s: seq<Byte>)
    requires 0 !in s && (forall a :: at <= a < at + |s| ==> Get(fs, a) == s[a - at]) && Get(fs, at + |s|) == 0
    ensures NextString(fs, at) == at + |s| + 1
    decreases |s|
  {
    if |s| > 0 {
      assert Get(fs, at) == s[0] != 0;
      SkipIs(fs, at + 1, s[1..]);
    }
  }

  // ---------------------------------------------------------------------
  // change_ldt

  /** (text_size + PAGE_SIZE - 1) & 0xFFFFF000 in unsigned arithmetic. */
  function CodeLimit(text: Word): (r: Word)
  {
    var t := ToWord(text + PAGE - 1);
    t - t % PAGE
  }

  /** The code limit is the text size rounded up to whole pages, unless
      the sum wraps. */
  lemma CodeLimitRounds(text: Word)
    requires text + PAGE - 1 < WORD
    ensures var r := CodeLimit(text); r % PAGE == 0 && text <= r < text + PAGE
  {
  }

  /** The linear address change_ldt gives argument page i: the 32 pages
      fill the top 128 KB of the 64 MB data segment, page 31 last. */
  function ArgPageAt(dataBase: int, i: int): int
  {
    dataBase + DATA_LIMIT - PAGE * (MAX_ARG_PAGES - i)
  }

  /** A byte copy_strings put at offset q of the argument space appears at
      data-segment offset q + DATA_LIMIT - ARG_SPACE, where do_execve then
      points p: the page holding it is mapped at ArgPageAt. */
  lemma ArgPagesLine(dataBase: int, q: int)
    requires 0 <= q < ARG_SPACE
    ensures ArgPageAt(dataBase, q / PAGE) + q % PAGE == dataBase + DATA_LIMIT - ARG_SPACE + q
    ensures dataBase + DATA_LIMIT - ARG_SPACE <= ArgPageAt(dataBase, q / PAGE)
    ensures ArgPageAt(dataBase, q / PAGE) + PAGE <= dataBase + DATA_LIMIT
  {
    var i := q / PAGE;
    assert PAGE * i + q % PAGE == q;
  }

  /** The put_page calls change_ldt makes for slots 31 down to i, in
      that order: the non-empty pages, each with its address. */
  function Placed(pages: seq<Word>, dataBase: int, i: nat): (r: seq<(Word, int)>)
    requires i <= |pages|
    decreases |pages| - i
  {
    if i == |pages| then []
    else Placed(pages, dataBase, i + 1) + (if pages[i] != 0 then [(pages[i], ArgPageAt(dataBase, i))] else [])
  }

  /** Every non-empty slot is placed at its address and nothing else is:
      change_ldt maps each argument page once, at the slot's place. */
  lemma {:induction false} PlacedMeans(pages: seq<Word>, dataBase: int, i: nat)
    requires i <= |pages|
    ensures forall x :: x in Placed(pages, dataBase, i) <==>
      exists j :: i <= j < |pages| && pages[j] != 0 && x == (pages[j], ArgPageAt(dataBase, j))
    decreases |pages| - i
  {
    if i < |pages| {
      PlacedMeans(pages, dataBase, i + 1);
      forall x | x in Placed(pages, dataBase, i)
        ensures exists j :: i <= j < |pages| && pages[j] != 0 && x == (pages[j], ArgPageAt(dataBase, j))
      {
        if x !in Placed(pages, dataBase, i + 1) {
          assert pages[i] != 0 && x == (pages[i], ArgPageAt(dataBase, i));
        }
      }
      forall x, j | i <= j < |pages| && pages[j] != 0 && x == (pages[j], ArgPageAt(dataBase, j))
        ensures x in Placed(pages, dataBase, i)
      {
        if j > i {
          assert x in Placed(pages, dataBase, i + 1);
        }
      }
    }
  }

  /** change_ldt(text_size, page) given the code segment base: the new
      code limit, the 64 MB data limit, and the put_page calls. */
  method ChangeLdt(text: Word, pages: seq<Word>, codeBase: int) returns (codeLimit: Word, dataLimit: int, placed: seq<(Word, int)>)
    requires |pages| == MAX_ARG_PAGES
    ensures codeLimit == CodeLimit(text) && dataLimit == DATA_LIMIT
    ensures placed == Placed(pages, codeBase, 0)
  {
    codeLimit := CodeLimit(text);
    dataLimit := DATA_LIMIT;
    var dataBase := codeBase + dataLimit;
    placed := [];
    var i := MAX_ARG_PAGES - 1;
    while i >= 0
      invariant -1 <= i < MAX_ARG_PAGES && dataBase == ArgPageAt(codeBase, i + 1)
      invariant placed == Placed(pages, codeBase, i + 1)
    {
      dataBase := dataBase - PAGE;
      if pages[i] != 0 {
        placed := placed + [(pages[i], dataBase)];
      }
      i := i - 1;
    }
  }

  // ---------------------------------------------------------------------
  // do_execve: the file and its header

  const S_ISUID: int := 0x800
  const S_ISGID: int := 0x400

  /** The mode bits of the class the caller falls in: the owner's when the
      effective uid owns the file, else the group's when the effective gid
      matches, else the others'. */
  function ClassBits(node: MInode, euid: int, egid: int): int
  {
    if euid == node.uid then node.mode / 64
    else if egid == node.gid then node.mode / 8
    else node.mode
  }

  /** Some execute bit (mode & 0111). */
  predicate AnyExec(mode: int)
  {
    mode % 2 == 1 || (mode / 8) % 2 == 1 || (mode / 64) % 2 == 1
  }

  /** do_execve's checks on the inode: a regular file (else -EACCES) that
      the caller's class may execute, or that root may execute because
      someone may (else -ENOEXEC). 0 when it may run. */
  function FileCheck(node: MInode, euid: int, egid: int, root: bool): (r: int)
  {
    if !IsReg(node.mode) then -EACCES
    else if ClassBits(node, euid, egid) % 2 == 0 && !(AnyExec(node.mode) && root) then -ENOEXEC
    else 0
  }

  /** What the file check promises, both ways: a regular file runs exactly
      when the caller's class has its execute bit, or the caller is root
      and any execute bit is set. The owner's bits decide for the owner
      even when the group's or others' would allow it. */
  lemma FileCheckMeans(node: MInode, euid: int, egid: int, root: bool)
    ensures FileCheck(node, euid, egid, root) == 0 <==>
      IsReg(node.mode) && (ClassBits(node, euid, egid) % 2 == 1 || (root && AnyExec(node.mode)))
    ensures !IsReg(node.mode) ==> FileCheck(node, euid, egid, root) == -EACCES
    ensures IsReg(node.mode) && euid == node.uid && (node.mode / 64) % 2 == 0 && !root ==>
      FileCheck(node, euid, egid, root) == -ENOEXEC
  {
  }

  /** The uid and gid the program runs with: the file's owner or group
      when S_ISUID or S_ISGID is set, else the caller's. */
  function RunIds(node: MInode, euid: int, egid: int): (int, int)
  {
    ((if (node.mode / S_ISUID) % 2 == 1 then node.uid else euid),
     (if (node.mode / S_ISGID) % 2 == 1 then node.gid else egid))
  }

  /** struct exec as the first 32 bytes of the block hold it. */
  function Header(data: seq<Byte>): (r: Exec)
    requires |data| == BLOCK_SIZE
  {
    Exec(Driver.Le32(data, 0), Driver.Le32(data, 4), Driver.Le32(data, 8), Driver.Le32(data, 12),
         Driver.Le32(data, 16), Driver.Le32(data, 20), Driver.Le32(data, 24), Driver.Le32(data, 28))
  }

  /** do_execve's checks on the a.out header, with unsigned sums: a
      demand-paged file without relocations whose text, data and bss fit
      in 48 MB and that is long enough for its text, data and symbols after
      the header block; and N_TXTOFF must be BLOCK_SIZE. */
  function HeaderCheck(ex: Exec, size: Word): (r: int)
  {
    if ex.magic != ZMAGIC || ex.trsize != 0 || ex.drsize != 0 ||
       Add(Add(ex.text, ex.data), ex.bss) > MAX_IMAGE ||
       size < Add(Add(Add(ex.text, ex.data), ex.syms), TxtOff(ex))
    then -ENOEXEC
    else if TxtOff(ex) != BLOCK_SIZE then -ENOEXEC
    else 0
  }

  /** The header is accepted exactly when the first test passes; the
      N_TXTOFF test never rejects a header that got past it, since a
      ZMAGIC header's text starts at 1024. Without wrap-around the sums
      mean what they say. */
  lemma HeaderCheckMeans(ex: Exec, size: Word)
    ensures HeaderCheck(ex, size) == 0 <==>
      ex.magic == ZMAGIC && ex.trsize == 0 && ex.drsize == 0 &&
      Add(Add(ex.text, ex.data), ex.bss) <= MAX_IMAGE &&
      size >= Add(Add(Add(ex.text, ex.data), ex.syms), TxtOff(ex))
    ensures HeaderCheck(ex, size) != 0 ==> HeaderCheck(ex, size) == -ENOEXEC
    ensures ex.text + ex.data + ex.bss < WORD && ex.text + ex.data + ex.syms + BLOCK_SIZE < WORD ==>
      (HeaderCheck(ex, size) == 0 <==>
        ex.magic == ZMAGIC && ex.trsize == 0 && ex.drsize == 0 &&
        ex.text + ex.data + ex.bss <= MAX_IMAGE && size >= ex.text + ex.data + ex.syms + BLOCK_SIZE)
  {
  }

  /** The size test adds in 32 bits: a header whose text and data add up
      to 4 GB passes it as if they were empty. */
  lemma HeaderSumWraps()
    ensures HeaderCheck(Exec(ZMAGIC, 0xFFFF_F000, 0x1000, 0, 0, 0, 0, 0), BLOCK_SIZE) == 0
  {
    assert Add(Add(0xFFFF_F000, 0x1000), 0) == 0;
  }

  // ---------------------------------------------------------------------
  // "#!" scripts

  const NL: Byte := 10
  const SPACE: Byte := 32
  const TAB: Byte := 9
  const SLASH: Byte := 47

  predicate Blank(c: Byte)
  {
    c == SPACE || c == TAB
  }

  /** The interpreter line: interp is the first word, name the part of it
      after its last '/', arg the rest of the line after the blank that
      ends the word (None when the word ends the line). */
  datatype Interp = Interp(interp: seq<Byte>, name: seq<Byte>, arg: Option<seq<Byte>>)

  /** The bytes strncpy(buf, b_data + 2, 1022) leaves before buf's first NUL. */
  function Line(data: seq<Byte>): (r: seq<Byte>)
    requires |data| == BLOCK_SIZE
    ensures 0 !in r && |r| <= BLOCK_SIZE - 2
  {
    UpToNul(data[2..])
  }

  function UpToNul(s: seq<Byte>): (r: seq<Byte>)
    ensures 0 !in r && |r| <= |s| && r == s[..|r|] && (|r| < |s| ==> s[|r|] == 0)
  {
    if |s| == 0 || s[0] == 0 then [] else [s[0]] + UpToNul(s[1..])
  }

  /** The index of the first c in s, or |s|. */
  function Find(s: seq<Byte>, c: Byte, i: nat): (r: nat)
    requires i <= |s|
    ensures i <= r <= |s| && (r < |s| ==> s[r] == c) && forall j :: i <= j < r ==> s[j] != c
    decreases |s| - i
  {
    if i == |s| then i else if s[i] == c then i else Find(s, c, i + 1)
  }

  /** The index of the first non-blank from i, or |s|. */
  function SkipBlanks(s: seq<Byte>, i: nat): (r: nat)
    requires i <= |s|
    ensures i <= r <= |s| && (r < |s| ==> !Blank(s[r])) && forall j :: i <= j < r ==> Blank(s[j])
    decreases |s| - i
  {
    if i == |s| then i else if Blank(s[i]) then SkipBlanks(s, i + 1) else i
  }

  /** The index of the first blank from i, or |s|. */
  function WordEnd(s: seq<Byte>, i: nat): (r: nat)
    requires i <= |s|
    ensures i <= r <= |s| && (r < |s| ==> Blank(s[r])) && forall j :: i <= j < r ==> !Blank(s[j])
    decreases |s| - i
  {
    if i == |s| then i else if Blank(s[i]) then i else WordEnd(s, i + 1)
  }

  /** Where the name starts: just past the last '/' in s[lo..hi], else lo. */
  function NameStart(s: seq<Byte>, lo: nat, hi: nat): (r: nat)
    requires lo <= hi <= |s|
    ensures lo <= r <= hi && (r > lo ==> s[r - 1] == SLASH)
    ensures forall j :: r <= j < hi ==> s[j] != SLASH
    decreases hi
  {
    if hi == lo then lo
    else if s[hi - 1] == SLASH then hi
    else NameStart(s, lo, hi - 1)
  }

  /** The "#!" line up to its newline, l: blanks are skipped, the first
      word is the interpreter and the rest after the blank ending it is
      its argument; None (-ENOEXEC) when only blanks are left. */
  function Parse(l: seq<Byte>): (r: Option<Interp>)
  {
    var s := SkipBlanks(l, 0);
    if s == |l| then None
    else
      var e := WordEnd(l, s);
      Some(Interp(l[s..e], l[NameStart(l, s, e)..e], if e < |l| then Some(l[e + 1..]) else None))
  }

  /** exec.c's parse of the "#!" block: None (-ENOEXEC) also when the
      first 1022 bytes after "#!" hold no newline before a NUL. */
  function ShBang(data: seq<Byte>): (r: Option<Interp>)
    requires |data| == BLOCK_SIZE
  {
    var line := Line(data);
    var nl := Find(line, NL, 0);
    if nl == |line| then None else Parse(line[..nl])
  }

  /** The parse fails exactly on a line of blanks. */
  lemma ParseFails(l: seq<Byte>)
    ensures Parse(l).None? <==> forall j :: 0 <= j < |l| ==> Blank(l[j])
  {
  }

  /** How a successful parse splits the line: blanks, then interp, then
      either nothing or one blank and arg. */
  lemma ParseShape(l: seq<Byte>)
    requires Parse(l).Some?
    ensures var it := Parse(l).value;
      exists b :: 0 <= b <= |l| && (forall j :: 0 <= j < b ==> Blank(l[j])) &&
        (it.arg.None? ==> l == l[..b] + it.interp) &&
        (it.arg.Some? ==>
          b + |it.interp| < |l| && Blank(l[b + |it.interp|]) &&
          l == l[..b] + it.interp + [l[b + |it.interp|]] + it.arg.value)
  {
    var s := SkipBlanks(l, 0);
    var e := WordEnd(l, s);
    if e < |l| {
      assert l == l[..s] + l[s..e] + [l[e]] + l[e + 1..];
    } else {
      assert l == l[..s] + l[s..e];
    }
  }

  /** The interpreter of a successful parse is a non-empty word without
      blanks; its name is the end of it after its last '/', and holds no
      '/'. */
  lemma ParseWord(l: seq<Byte>)
    requires Parse(l).Some?
    ensures var it := Parse(l).value;
      |it.interp| > 0 && (forall j :: 0 <= j < |it.interp| ==> !Blank(it.interp[j])) &&
      SLASH !in it.name && |it.name| <= |it.interp| && it.interp[|it.interp| - |it.name|..] == it.name
  {
    var s := SkipBlanks(l, 0);
    var e := WordEnd(l, s);
    var n := NameStart(l, s, e);
    assert l[s..e][|l[s..e]| - |l[n..e]|..] == l[n..e];
  }

  /** The parse as the C does it: strchr for the newline, then a pointer
      over the blanks and along the first word, remembering the byte after
      each '/'. */
  method ReadInterp(data: seq<Byte>) returns (r: Option<Interp>)
    requires |data| == BLOCK_SIZE
    ensures r == ShBang(data)
  {
    var buf := Line(data);
    var cp := ScanFor(buf, NL);
    if cp == |buf| {
      return None;
    }
    var l := buf[..cp];
    cp := ScanBlanks(l);
    if cp == |l| {
      return None;
    }
    var interp := cp;
    var name;
    cp, name := ScanWord(l, interp);
    r := Some(Interp(l[interp..cp], l[name..cp], if cp < |l| then Some(l[cp + 1..]) else None));
  }

  /** for (cp = buf; *cp != c && cp < end; cp++); as an index. */
  method ScanFor(s: seq<Byte>, c: Byte) returns (cp: nat)
    ensures cp == Find(s, c, 0)
  {
    cp := 0;
    while cp < |s| && s[cp] != c
      invariant cp <= |s| && Find(s, c, cp) == Find(s, c, 0)
    {
      cp := cp + 1;
    }
  }

  /** while (*cp == ' ' || *cp == '\t') cp++; within s. */
  method ScanBlanks(s: seq<Byte>) returns (cp: nat)
    ensures cp == SkipBlanks(s, 0)
  {
    cp := 0;
    while cp < |s| && Blank(s[cp])
      invariant cp <= |s| && SkipBlanks(s, cp) == SkipBlanks(s, 0)
    {
      cp := cp + 1;
    }
  }

  /** The scan over the interpreter's path from start: the word's end and
      the index just past its last '/'. */
  method ScanWord(s: seq<Byte>, start: nat) returns (cp: nat, name: nat)
    requires start <= |s|
    ensures cp == WordEnd(s, start) && name == NameStart(s, start, cp)
  {
    cp, name := start, start;
    while cp < |s| && !Blank(s[cp])
      invariant start <= name <= cp <= |s| && WordEnd(s, cp) == WordEnd(s, start)
      invariant NameStart(s, start, cp) == name
    {
      if s[cp] == SLASH {
        name := cp + 1;
      }
      cp := cp + 1;
    }
  }

  /** The arguments a script's interpreter gets: its name, the line's
      argument if any, the script's file name, then the script's own
      arguments after argv[0]. */
  function ScriptArgs(it: Interp, filename: seq<Byte>, argv: seq<Option<seq<Byte>>>): seq<Option<seq<Byte>>>
  {
    [Some(it.name)] + (if it.arg.Some? then [it.arg] else []) + [Some(filename)] + Rest(argv)
  }

  /** argv + 1 with --argc: nothing when argv is empty. */
  function Rest(argv: seq<Option<seq<Byte>>>): seq<Option<seq<Byte>>>
  {
    if |argv| == 0 then [] else argv[1..]
  }

  /** A further copy_strings call from where the last one left off: none
      once that one has run off page[] or panicked. */
  function Then(r: (Ends, Word, Space), args: seq<Option<seq<Byte>>>): (Ends, Word, Space)
    requires SpaceOk(r.2)
  {
    if r.0 == Returns then CopyStrings(r.2, args, |args|, r.1) else r
  }

  /** A copy that returned a pointer other than 0. */
  predicate Good(r: (Ends, Word, Space))
  {
    r.0 == Returns && r.1 != 0
  }

  /** Chaining copies: if the second call ends well, the two calls did what
      one call on both vectors, the second's first, does. */
  lemma ThenAppend(sp: Space, a: seq<Option<seq<Byte>>>, b: seq<Option<seq<Byte>>>, p: Word)
    requires SpaceOk(sp) && p != 0
    ensures var r := CopyStrings(sp, a, |a|, p);
      Good(Then(r, b)) ==> Good(r) && Then(r, b) == CopyStrings(sp, b + a, |b + a|, p)
  {
    var r := CopyStrings(sp, a, |a|, p);
    if Good(r) {
      CopyFromAppend(sp, a, b, p);
    }
  }

  /** The copies do_execve makes for a script (environment, then argv
      without argv[0], the file name, the line's argument and the
      interpreter's name, each call from where the last left off) lay
      out the interpreter's arguments then the environment as one
      copy_strings would, when the last call does not return 0. */
  lemma ScriptCopies(sp: Space, it: Interp, filename: seq<Byte>, argv: seq<Option<seq<Byte>>>,
                     envp: seq<Option<seq<Byte>>>, p: Word)
    requires SpaceOk(sp) && p != 0
    ensures
      var r2 := Then(CopyStrings(sp, envp, |envp|, p), Rest(argv));
      var r3 := Then(r2, [Some(filename)]);
      var r4 := if it.arg.Some? then Then(r3, [it.arg]) else r3;
      var r5 := Then(r4, [Some(it.name)]);
      Good(r5) ==>
        r5 == CopyStrings(sp, ScriptArgs(it, filename, argv) + envp, |ScriptArgs(it, filename, argv) + envp|, p)
  {
    var a2 := Rest(argv) + envp;
    var a3 := [Some(filename)] + a2;
    var a4 := (if it.arg.Some? then [it.arg] else []) + a3;
    var a5 := [Some(it.name)] + a4;
    assert a5 == ScriptArgs(it, filename, argv) + envp;
    var r2 := Then(CopyStrings(sp, envp, |envp|, p), Rest(argv));
    var r3 := Then(r2, [Some(filename)]);
    var r4 := if it.arg.Some? then Then(r3, [it.arg]) else r3;
    var r5 := Then(r4, [Some(it.name)]);
    if Good(r5) {
      ThenAppend(sp, envp, Rest(argv), p);
      assert Good(r4) && Good(r3) && Good(r2) && r2 == CopyStrings(sp, a2, |a2|, p);
      ThenAppend(sp, a2, [Some(filename)], p);
      assert r3 == CopyStrings(sp, a3, |a3|, p);
      if it.arg.Some? {
        ThenAppend(sp, a3, [it.arg], p);
      } else {
        assert a4 == a3;
      }
      assert r4 == CopyStrings(sp, a4, |a4|, p);
      ThenAppend(sp, a4, [Some(it.name)], p);
    }
  }

  // ---------------------------------------------------------------------
  // do_execve's decision

  /** What do_execve makes of a file: it refuses it with an error code,
      runs it as a script through an interpreter, or loads it as a binary
      with this header. */
  datatype Verdict = Refuse(err: int) | Script(it: Interp) | Binary(ex: Exec)

  /** do_execve from restart_interp to its header checks: the inode's
      checks, the first block (None when bread fails: -EACCES), a "#!"
      line (only when no script has been seen yet: shBang), then the
      header. */
  function Decide(node: MInode, euid: int, egid: int, root: bool, block: Option<seq<Byte>>, shBang: bool): (r: Verdict)
    requires block.Some? ==> |block.value| == BLOCK_SIZE
  {
    var f := FileCheck(node, euid, egid, root);
    if f != 0 then Refuse(f)
    else if block.None? then Refuse(-EACCES)
    else
      var data := block.value;
      if data[0] == 35 && data[1] == 33 && !shBang then
        match ShBang(data)
        case None => Refuse(-ENOEXEC)
        case Some(it) => Script(it)
      else
        var h := HeaderCheck(Header(data), ToWord(node.size));
        if h != 0 then Refuse(h) else Binary(Header(data))
  }

  /** What do_execve's decision promises: a binary has passed the file and
      header checks; a script is only taken on the first pass, so a
      script whose interpreter is itself a script is refused with
      -ENOEXEC, as "#!" is no a.out magic number; every refusal is one of
      -EACCES and -ENOEXEC. */
  lemma DecideMeans(node: MInode, euid: int, egid: int, root: bool, block: Option<seq<Byte>>, shBang: bool)
    requires block.Some? ==> |block.value| == BLOCK_SIZE
    ensures var r := Decide(node, euid, egid, root, block, shBang);
      (r.Binary? ==>
        FileCheck(node, euid, egid, root) == 0 && block.Some? &&
        r.ex == Header(block.value) && HeaderCheck(r.ex, ToWord(node.size)) == 0) &&
      (r.Script? ==>
        !shBang && FileCheck(node, euid, egid, root) == 0 && block.Some? &&
        block.value[..2] == [35, 33] && ShBang(block.value) == Some(r.it)) &&
      (r.Refuse? ==> r.err == -EACCES || r.err == -ENOEXEC) &&
      ((shBang && FileCheck(node, euid, egid, root) == 0 && block.Some? &&
        block.value[0] == 35 && block.value[1] == 33) ==>
        r == Refuse(-ENOEXEC))
  {
    var r := Decide(node, euid, egid, root, block, shBang);
    if r.Refuse? && FileCheck(node, euid, egid, root) == 0 && block.Some? {
      HeaderCheckMeans(Header(block.value), ToWord(node.size));
    }
  }
}
