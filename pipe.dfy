/** Pipes (fs/pipe.c). A pipe is an inode whose i_size holds the address of
    one 4096-byte page, with the head in i_zone[0] and the tail in i_zone[1];
    the class Pipe below keeps exactly those three things, plus i_count,
    which is 2 while both ends are open. */
module Pipe {
  import opened Util
  import opened FsDefs
  import opened Files
  import opened InodeTable

  /** An index past the end of the page, brought back onto it. */
  function Pos(x: int): int
  {
    if x < PAGE_SIZE then x else x - PAGE_SIZE
  }

  /** Moving an index on by k < PAGE_SIZE and masking it with 4095 is Pos. */
  lemma Wrap(x: int, k: int)
    requires PipeIndex(x) && 0 <= k < PAGE_SIZE
    ensures (x + k) % PAGE_SIZE == Pos(x + k)
  {
  }

  /** PIPE_SIZE without the mask. */
  lemma SizeIs(head: int, tail: int)
    requires PipeIndex(head) && PipeIndex(tail)
    ensures PipeSize(head, tail) == if tail <= head then head - tail else head - tail + PAGE_SIZE
  {
  }

  /** The bytes waiting in the page, oldest first: from the tail up to the
      head, wrapping at the end of the page. */
  function Circ(page: seq<Byte>, head: int, tail: int): (r: seq<Byte>)
    requires |page| == PAGE_SIZE && PipeIndex(head) && PipeIndex(tail)
    ensures |r| == PipeSize(head, tail)
    ensures forall i :: 0 <= i < |r| ==> r[i] == page[Pos(tail + i)]
  {
    seq(PipeSize(head, tail), i requires 0 <= i < PipeSize(head, tail) => page[Pos(tail + i)])
  }

  /** Moving the tail on by k forgets the k oldest bytes and keeps the rest. */
  lemma Advance(page: seq<Byte>, head: int, tail: int, k: int)
    requires |page| == PAGE_SIZE && PipeIndex(head) && PipeIndex(tail)
    requires 0 <= k <= PipeSize(head, tail)
    ensures PipeSize(head, (tail + k) % PAGE_SIZE) == PipeSize(head, tail) - k
    ensures Circ(page, head, (tail + k) % PAGE_SIZE) == Circ(page, head, tail)[k..]
  {
    Wrap(tail, k);
    SizeIs(head, tail);
    var t := (tail + k) % PAGE_SIZE;
    SizeIs(head, t);
    var a := Circ(page, head, t);
    var b := Circ(page, head, tail)[k..];
    assert |a| == |b|;
    forall i | 0 <= i < |a|
      ensures a[i] == b[i]
    {
      assert Pos(t + i) == Pos(tail + k + i);
    }
  }

  /** The k oldest bytes, when they do not wrap, are page[tail..tail+k]. */
  lemma Oldest(page: seq<Byte>, head: int, tail: int, k: int)
    requires |page| == PAGE_SIZE && PipeIndex(head) && PipeIndex(tail)
    requires 0 <= k <= PipeSize(head, tail) && tail + k <= PAGE_SIZE
    ensures Circ(page, head, tail)[..k] == page[tail..tail + k]
  {
  }

  /** Copying d into the free room at the head, without wrapping, and moving the
      head past it appends d to the waiting bytes. */
  lemma Append(page: seq<Byte>, page': seq<Byte>, head: int, tail: int, d: seq<Byte>)
    requires |page| == PAGE_SIZE && PipeIndex(head) && PipeIndex(tail)
    requires head + |d| <= PAGE_SIZE && |d| <= PAGE_SIZE - 1 - PipeSize(head, tail)
    requires page' == page[..head] + d + page[head + |d|..]
    ensures PipeSize((head + |d|) % PAGE_SIZE, tail) == PipeSize(head, tail) + |d|
    ensures Circ(page', (head + |d|) % PAGE_SIZE, tail) == Circ(page, head, tail) + d
  {
    Wrap(head, |d|);
    SizeIs(head, tail);
    var h := (head + |d|) % PAGE_SIZE;
    SizeIs(h, tail);
    var n := PipeSize(head, tail);
    var a := Circ(page', h, tail);
    var b := Circ(page, head, tail) + d;
    assert |a| == |b|;
    forall i | 0 <= i < |a|
      ensures a[i] == b[i]
    {
      if i < n {
        assert Pos(tail + i) < head || head + |d| <= Pos(tail + i);
      } else {
        assert Pos(tail + i) == head + (i - n);
      }
    }
  }

  lemma Assoc(a: seq<Byte>, b: seq<Byte>, c: seq<Byte>)
    ensures (a + b) + c == a + (b + c)
  {
  }

  lemma SplitAt(s: seq<Byte>, n: int)
    requires 0 <= n <= |s|
    ensures s[..n] + s[n..] == s
  {
  }

  /** Who else can act on the pipe while a reader sleeps: the writer adds
      bytes (as many as fit), or closes its end. */
  datatype WriterStep = Wrote(data: seq<Byte>) | WriterCloses

  /** ... and while a writer sleeps: the reader takes up to n bytes, or closes. */
  datatype ReaderStep = Took(n: int) | ReaderCloses

  function Min(a: int, b: int): int { if a < b then a else b }

  class Pipe {
    /** The page at i_size. */
    const page: array<Byte>
    /** PIPE_HEAD and PIPE_TAIL. */
    var head: int
    var tail: int
    /** i_count of the pipe inode. */
    var count: int

    ghost predicate Valid()
      reads this
    {
      page.Length == PAGE_SIZE && PipeIndex(head) && PipeIndex(tail)
    }

    function Size(): (r: int)
      reads this
      requires Valid()
      ensures 0 <= r <= PAGE_SIZE - 1
    {
      PipeSize(head, tail)
    }

    /** The bytes written and not yet read, oldest first. */
    function Contents(): (r: seq<Byte>)
      reads this, page
      requires Valid()
      ensures |r| == Size()
    {
      Circ(page[..], head, tail)
    }

    /** The pipe inode as get_pipe_inode leaves it: empty, both ends open. */
    constructor (p: array<Byte>)
      requires p.Length == PAGE_SIZE
      ensures Valid() && page == p && Contents() == [] && count == 2
    {
      page := p;
      head, tail, count := 0, 0, 2;
    }

    /** One pass of read_pipe's outer loop once the pipe is not empty: the
        chunk min(PAGE_SIZE - tail, want, size), which never wraps, copied out
        byte by byte from the old tail, and the tail moved on modulo 4096. */
    method ReadChunk(want: int) returns (out: seq<Byte>)
      requires Valid() && want > 0 && Size() > 0
      modifies this
      ensures Valid() && head == old(head) && count == old(count)
      ensures |out| == Min(Min(PAGE_SIZE - old(tail), want), old(Size()))
      ensures out == old(Contents())[..|out|] && Contents() == old(Contents())[|out|..]
    {
      var size := Size();
      var chars := PAGE_SIZE - tail;
      if chars > want {
        chars := want;
      }
      if chars > size {
        chars := size;
      }
      var at := tail;
      ghost var c0 := Contents();
      tail := (tail + chars) % PAGE_SIZE;
      Advance(page[..], head, at, chars);
      Oldest(page[..], head, at, chars);
      assert c0 == Circ(page[..], head, at);
      out := CopyOut(at, chars);
    }

    /** The byte-by-byte copy of chars bytes of the pipe page from offset at out to the user. */
    method CopyOut(at: int, chars: int) returns (out: seq<Byte>)
      requires Valid() && 0 <= at && 0 <= chars && at + chars <= PAGE_SIZE
      ensures out == page[at..at + chars]
    {
      out := [];
      var i := 0;
      while i < chars
        invariant 0 <= i <= chars
        invariant out == page[at..at + i]
      {
        out := out + [page[at + i]];
        i := i + 1;
      }
    }

    /** One pass of write_pipe's outer loop once the pipe is not full: the
        chunk min(PAGE_SIZE - head, |data|, 4095 - size), copied in byte by
        byte at the old head, and the head moved on modulo 4096. */
    method WriteChunk(data: seq<Byte>) returns (chars: int)
      requires Valid() && |data| > 0 && Size() < PAGE_SIZE - 1
      modifies this, page
      ensures Valid() && tail == old(tail) && count == old(count)
      ensures chars == Min(Min(PAGE_SIZE - old(head), |data|), PAGE_SIZE - 1 - old(Size()))
      ensures Contents() == old(Contents()) + data[..chars]
    {
      var size := PAGE_SIZE - 1 - Size();
      chars := PAGE_SIZE - head;
      if chars > |data| {
        chars := |data|;
      }
      if chars > size {
        chars := size;
      }
      var at := head;
      ghost var before := page[..];
      ghost var c0 := Contents();
      head := (head + chars) % PAGE_SIZE;
      var i := 0;
      while i < chars
        modifies page
        invariant 0 <= i <= chars
        invariant forall j :: 0 <= j < PAGE_SIZE ==> page[j] == if at <= j < at + i then data[j - at] else before[j]
      {
        page[at + i] := data[i];
        i := i + 1;
      }
      assert page[..] == before[..at] + data[..chars] + before[at + chars..];
      Append(before, page[..], at, tail, data[..chars]);
      assert c0 == Circ(before, at, tail);
    }

    /** What the writer does during one sleep of a reader. A write that wraps
        round the end of the page goes in as two chunks, as write_pipe does. */
    method Writer(s: WriterStep) returns (fed: seq<Byte>)
      requires Valid()
      modifies this, page
      ensures Valid() && tail == old(tail)
      ensures Contents() == old(Contents()) + fed
      ensures s.WriterCloses? ==> fed == [] && count == old(count) - 1
      ensures s.Wrote? ==> count == old(count) && |fed| <= |s.data| && fed == s.data[..|fed|]
    {
      if s.WriterCloses? {
        count := count - 1;
        return [];
      }
      fed := [];
      if |s.data| > 0 && Size() < PAGE_SIZE - 1 {
        var n := WriteChunk(s.data);
        fed := s.data[..n];
        if n < |s.data| && Size() < PAGE_SIZE - 1 {
          var m := WriteChunk(s.data[n..]);
          assert s.data[n..][..m] == s.data[n..n + m];
          fed := s.data[..n + m];
        }
      }
    }

    /** What the reader does during one sleep of a writer. */
    method Reader(s: ReaderStep) returns (taken: seq<Byte>)
      requires Valid()
      modifies this
      ensures Valid() && head == old(head)
      ensures old(Contents()) == taken + Contents()
      ensures s.ReaderCloses? ==> taken == [] && count == old(count) - 1
      ensures s.Took? ==> count == old(count) && |taken| == Min(if s.n < 0 then 0 else s.n, old(Size()))
    {
      if s.ReaderCloses? {
        count := count - 1;
        return [];
      }
      var k := Min(if s.n < 0 then 0 else s.n, Size());
      taken := Contents()[..k];
      Advance(page[..], head, tail, k);
      tail := (tail + k) % PAGE_SIZE;
    }

    /** read_pipe. While the pipe is empty the reader returns what it has if
        no writer is left (i_count != 2) and otherwise sleeps; each sleep lets
        the writer take the next step of env. The bytes returned are the
        oldest ones: those already waiting, then those the writer fed during
        the sleeps, in order. Asleep means env ran out while still waiting. */
    method ReadPipe(want: int, env: seq<WriterStep>) returns (read: int, out: seq<Byte>, st: Status, ghost fed: seq<Byte>)
      requires Valid()
      modifies this, page
      ensures Valid()
      ensures read == |out| && 0 <= read && (want > 0 ==> read <= want) && (want <= 0 ==> read == 0)
      ensures out + Contents() == old(Contents()) + fed
      ensures st == Done || st == Asleep
      ensures st == Done && read < want ==> Contents() == [] && count != 2
    {
      read, out, st, fed := 0, [], Done, [];
      var left := want;
      var steps := env;
      while left > 0
        invariant Valid()
        invariant read == |out| && 0 <= read && (want > 0 ==> 0 <= left && read + left == want) && (want <= 0 ==> read == 0 && left == want)
        invariant out + Contents() == old(Contents()) + fed
        decreases left
      {
        ghost var c0 := Contents();
        var gone;
        ghost var more;
        gone, steps, more := AwaitData(steps);
        Assoc(out, c0, more);
        Assoc(old(Contents()), fed, more);
        fed := fed + more;
        if gone {
          return read, out, Done, fed;
        }
        if Size() == 0 {
          return read, out, Asleep, fed;
        }
        ghost var c1 := Contents();
        var chunk := ReadChunk(left);
        SplitAt(c1, |chunk|);
        Assoc(out, chunk, Contents());
        left := left - |chunk|;
        read := read + |chunk|;
        out := out + chunk;
      }
    }

    /** read_pipe's inner loop: wait while the pipe is empty. It ends with
        data to read, with no writer left (gone), or with env used up. */
    method AwaitData(env: seq<WriterStep>) returns (gone: bool, rest: seq<WriterStep>, ghost more: seq<Byte>)
      requires Valid()
      modifies this, page
      ensures Valid() && Contents() == old(Contents()) + more
      ensures |rest| <= |env|
      ensures gone ==> Size() == 0 && count != 2
      ensures !gone ==> Size() > 0 || rest == []
    {
      rest, more := env, [];
      gone := false;
      while Size() == 0
        invariant Valid() && Contents() == old(Contents()) + more
        invariant |rest| <= |env|
        decreases |rest|
      {
        if count != 2 {
          return true, rest, more;
        }
        if rest == [] {
          return false, rest, more;
        }
        var fed := Writer(rest[0]);
        more := more + fed;
        rest := rest[1..];
      }
    }

    /** write_pipe. While the pipe is full the writer gives up if the
        reader is gone (i_count != 2), raising SIGPIPE in the current task
        and returning the bytes written so far, or -1 for none; otherwise it
        sleeps, and each sleep lets the reader take the next step of env.
        The pipe then holds, after what the reader took, the old contents
        followed by the first written bytes of data. */
    method WritePipe(data: seq<Byte>, want: int, env: seq<ReaderStep>)
      returns (r: int, written: int, sigpipe: bool, st: Status, ghost taken: seq<Byte>)
      requires Valid() && want <= |data|
      modifies this, page
      ensures Valid()
      ensures 0 <= written && (want > 0 ==> written <= want) && (want <= 0 ==> written == 0)
      ensures taken + Contents() == old(Contents()) + data[..written]
      ensures r == if sigpipe && written == 0 then -1 else written
      ensures st == Done || st == Asleep
      ensures sigpipe ==> st == Done && count != 2 && Size() == PAGE_SIZE - 1 && written < want
      ensures st == Done && !sigpipe ==> written == if want > 0 then want else 0
    {
      written, sigpipe, st, taken := 0, false, Done, [];
      var left := want;
      var steps := env;
      while left > 0
        invariant Valid()
        invariant 0 <= written && (want > 0 ==> 0 <= left && written + left == want) && (want <= 0 ==> written == 0 && left == want)
        invariant taken + Contents() == old(Contents()) + data[..written]
        decreases left
      {
        ghost var c0 := Contents();
        var gone;
        ghost var took;
        gone, steps, took := AwaitRoom(steps);
        Assoc(taken, took, Contents());
        taken := taken + took;
        if gone {
          sigpipe := true;
          r := if written == 0 then -1 else written;
          return;
        }
        if Size() == PAGE_SIZE - 1 {
          st := Asleep;
          r := written;
          return;
        }
        ghost var c1 := Contents();
        var n := WriteChunk(data[written..written + left]);
        assert data[written..written + left][..n] == data[written..written + n];
        assert data[..written] + data[written..written + n] == data[..written + n];
        Assoc(taken, c1, data[written..written + n]);
        Assoc(old(Contents()), data[..written], data[written..written + n]);
        written := written + n;
        left := left - n;
      }
      r := written;
    }

    /** write_pipe's inner loop: wait while the pipe is full. It ends with
        room to write, with no reader left (gone), or with env used up. */
    method AwaitRoom(env: seq<ReaderStep>) returns (gone: bool, rest: seq<ReaderStep>, ghost took: seq<Byte>)
      requires Valid()
      modifies this
      ensures Valid() && old(Contents()) == took + Contents()
      ensures |rest| <= |env|
      ensures gone ==> Size() == PAGE_SIZE - 1 && count != 2
      ensures !gone ==> Size() < PAGE_SIZE - 1 || rest == []
    {
      rest, took := env, [];
      gone := false;
      while Size() == PAGE_SIZE - 1
        invariant Valid() && old(Contents()) == took + Contents()
        invariant |rest| <= |env|
        decreases |rest|
      {
        if count != 2 {
          return true, rest, took;
        }
        if rest == [] {
          return false, rest, took;
        }
        ghost var c := Contents();
        var more := Reader(rest[0]);
        Assoc(took, more, Contents());
        took := took + more;
        rest := rest[1..];
      }
    }
  }

  // ---------------------------------------------------------------------
  // sys_pipe

  /** file_table with entry i's f_count raised by one (nothing for NR_FILE). */
  function Claim(table: seq<File>, i: int): (r: seq<File>)
    requires |table| == NR_FILE && 0 <= i <= NR_FILE
    ensures |r| == NR_FILE
  {
    if i < NR_FILE then table[i := table[i].(count := table[i].count + 1)] else table
  }

  /** filp with slot fd set to f (nothing for NR_OPEN). */
  function Put(filp: seq<int>, fd: int, f: int): (r: seq<int>)
    requires |filp| == NR_OPEN && 0 <= fd <= NR_OPEN
    ensures |r| == NR_OPEN
  {
    if fd < NR_OPEN then filp[fd := f] else filp
  }

  /** The second free entry after the first, NR_FILE when there is none. */
  function NextFile(table: seq<File>, first: int): (r: int)
    requires |table| == NR_FILE && 0 <= first <= NR_FILE
  {
    if first < NR_FILE then FreeFile(table, first + 1) else NR_FILE
  }

  function NextFd(filp: seq<int>, first: int): (r: int)
    requires |filp| == NR_OPEN && 0 <= first <= NR_OPEN
  {
    if first < NR_OPEN then FreeFd(filp, first + 1) else NR_OPEN
  }

  /** sys_pipe's first loop: take (f_count++) the first two free file_table
      entries, stopping after two. */
  method TakeFiles(d: Descriptors) returns (j: int, f0: int, f1: int)
    requires d.Valid()
    modifies d
    ensures d.Valid() && d.filp == old(d.filp) && d.closeOnExec == old(d.closeOnExec)
    ensures f0 == FreeFile(old(d.table), 0) && f1 == NextFile(old(d.table), f0)
    ensures j == if f0 == NR_FILE then 0 else if f1 == NR_FILE then 1 else 2
    ensures d.table == Claim(Claim(old(d.table), f0), f1)
  {
    var t0 := d.table;
    j, f0, f1 := 0, NR_FILE, NR_FILE;
    var i := 0;
    while j < 2 && i < NR_FILE
      invariant unchanged(d)
      invariant 0 <= i <= NR_FILE && 0 <= j <= 2
      invariant j == 0 ==> FreeFile(t0, 0) == FreeFile(t0, i) && f0 == NR_FILE && f1 == NR_FILE
      invariant j >= 1 ==> f0 == FreeFile(t0, 0) < i
      invariant j == 1 ==> FreeFile(t0, f0 + 1) == FreeFile(t0, i) && f1 == NR_FILE
      invariant j == 2 ==> f1 == FreeFile(t0, f0 + 1) < i
      invariant f1 == NR_FILE || f0 < f1
    {
      FreeFileStep(t0, i);
      if t0[i].count == 0 {
        if j == 0 {
          f0 := i;
        } else {
          f1 := i;
        }
        j := j + 1;
      }
      i := i + 1;
    }
    ClaimOk(t0, f0);
    ClaimOk(Claim(t0, f0), f1);
    d.table := Claim(Claim(t0, f0), f1);
  }

  /** One step of the scan for a free file_table entry. */
  lemma FreeFileStep(table: seq<File>, i: int)
    requires |table| == NR_FILE && 0 <= i < NR_FILE
    ensures FreeFile(table, i) == if table[i].count == 0 then i else FreeFile(table, i + 1)
  {
  }

  /** One step of the scan for a free descriptor. */
  lemma FreeFdStep(filp: seq<int>, i: int)
    requires |filp| == NR_OPEN && 0 <= i < NR_OPEN
    ensures FreeFd(filp, i) == if filp[i] == NULL then i else FreeFd(filp, i + 1)
  {
  }

  /** Raising an f_count keeps every entry well formed. */
  lemma ClaimOk(table: seq<File>, i: int)
    requires |table| == NR_FILE && 0 <= i <= NR_FILE && forall k :: 0 <= k < NR_FILE ==> FileOk(table[k])
    ensures forall k :: 0 <= k < NR_FILE ==> FileOk(Claim(table, i)[k])
  {
  }

  /** sys_pipe's second loop: put the two files into the first two free
      slots of filp, stopping after two. */
  method TakeFds(d: Descriptors, f0: int, f1: int) returns (k: int, x: int, y: int)
    requires d.Valid() && 0 <= f0 < NR_FILE && 0 <= f1 < NR_FILE
    modifies d
    ensures d.Valid() && d.table == old(d.table) && d.closeOnExec == old(d.closeOnExec)
    ensures x == FreeFd(old(d.filp), 0) && y == NextFd(old(d.filp), x)
    ensures k == if x == NR_OPEN then 0 else if y == NR_OPEN then 1 else 2
    ensures d.filp == Put(Put(old(d.filp), x, f0), y, f1)
  {
    var p0 := d.filp;
    k, x, y := 0, NR_OPEN, NR_OPEN;
    var i := 0;
    while k < 2 && i < NR_OPEN
      invariant unchanged(d)
      invariant 0 <= i <= NR_OPEN && 0 <= k <= 2
      invariant k == 0 ==> FreeFd(p0, 0) == FreeFd(p0, i) && x == NR_OPEN && y == NR_OPEN
      invariant k >= 1 ==> x == FreeFd(p0, 0) < i
      invariant k == 1 ==> FreeFd(p0, x + 1) == FreeFd(p0, i) && y == NR_OPEN
      invariant k == 2 ==> y == FreeFd(p0, x + 1) < i
      invariant y == NR_OPEN || x < y
    {
      FreeFdStep(p0, i);
      if p0[i] == NULL {
        if k == 0 {
          x := i;
        } else {
          y := i;
        }
        k := k + 1;
      }
      i := i + 1;
    }
    PutOk(p0, x, f0);
    PutOk(Put(p0, x, f0), y, f1);
    d.filp := Put(Put(p0, x, f0), y, f1);
  }

  /** Filling a slot with a file_table index keeps filp well formed. */
  lemma PutOk(filp: seq<int>, fd: int, f: int)
    requires |filp| == NR_OPEN && 0 <= fd <= NR_OPEN && 0 <= f < NR_FILE
    requires forall k :: 0 <= k < NR_OPEN ==> -1 <= filp[k] < NR_FILE
    ensures forall k :: 0 <= k < NR_OPEN ==> -1 <= Put(filp, fd, f)[k] < NR_FILE
  {
  }

  /** Giving back the one entry taken restores the table. */
  lemma Unclaim(table: seq<File>, f: int)
    requires |table| == NR_FILE && 0 <= f < NR_FILE && table[f].count == 0
    ensures Claim(Claim(table, f), NR_FILE) == Claim(table, f)
    ensures Claim(table, f)[f := Claim(table, f)[f].(count := 0)] == table
  {
  }

  /** Emptying the one slot filled restores filp. */
  lemma Unput(filp: seq<int>, x: int, f: int)
    requires |filp| == NR_OPEN && 0 <= x < NR_OPEN && filp[x] == NULL
    ensures Put(Put(filp, x, f), NR_OPEN, f) == Put(filp, x, f)
    ensures Put(filp, x, f)[x := NULL] == filp
  {
  }

  /** Both claims landing on free entries are Taken. */
  lemma ClaimsTaken(table: seq<File>, f0: int, f1: int)
    requires |table| == NR_FILE && 0 <= f0 < f1 < NR_FILE && table[f0].count == 0 && table[f1].count == 0
    ensures Claim(Claim(table, f0), f1) == Taken(table, f0, f1)
  {
  }

  /** file_table with the two pipe files taken: f_count 1 each. */
  function Taken(table: seq<File>, f0: int, f1: int): (r: seq<File>)
    requires |table| == NR_FILE && 0 <= f0 < NR_FILE && 0 <= f1 < NR_FILE
  {
    table[f0 := table[f0].(count := 1)][f1 := table[f1].(count := 1)]
  }

  /** file_table with the two pipe files given back: f_count 0 each. */
  function Given(table: seq<File>, f0: int, f1: int): (r: seq<File>)
    requires |table| == NR_FILE && 0 <= f0 < NR_FILE && 0 <= f1 < NR_FILE
  {
    table[f0 := table[f0].(count := 0)][f1 := table[f1].(count := 0)]
  }

  /** file_table with a read end in f0 and a write end in f1 on inode slot. */
  function Ends(table: seq<File>, f0: int, f1: int, slot: int): (r: seq<File>)
    requires |table| == NR_FILE && 0 <= f0 < NR_FILE && 0 <= f1 < NR_FILE
  {
    table[f0 := table[f0].(count := 1, inode := slot, pos := 0, mode := 1)]
         [f1 := table[f1].(count := 1, inode := slot, pos := 0, mode := 2)]
  }

  /** Giving back two entries just taken restores the table. */
  lemma GivenTaken(table: seq<File>, f0: int, f1: int)
    requires |table| == NR_FILE && 0 <= f0 < f1 < NR_FILE && table[f0].count == 0 && table[f1].count == 0
    ensures Given(Taken(table, f0, f1), f0, f1) == table
  {
  }

  /** Installing the ends on entries already taken is installing them. */
  lemma EndsTaken(table: seq<File>, f0: int, f1: int, slot: int)
    requires |table| == NR_FILE && 0 <= f0 < f1 < NR_FILE
    ensures Ends(Taken(table, f0, f1), f0, f1, slot) == Ends(table, f0, f1, slot)
  {
  }

  /** Setting two filled slots back to NULL restores filp. */
  lemma UndoFds(filp: seq<int>, x: int, y: int, f0: int, f1: int)
    requires |filp| == NR_OPEN && 0 <= x < y < NR_OPEN && filp[x] == NULL && filp[y] == NULL
    ensures filp[x := f0][y := f1][x := NULL][y := NULL] == filp
  {
  }

  /** The two entries sys_pipe takes and the two descriptors it fills both exist. */
  predicate Room(table: seq<File>, filp: seq<int>)
    requires |table| == NR_FILE && |filp| == NR_OPEN
  {
    NextFile(table, FreeFile(table, 0)) < NR_FILE && NextFd(filp, FreeFd(filp, 0)) < NR_OPEN
  }

  /** sys_pipe's two loops and the give-backs that follow them: either
      both pairs are found and taken, or nothing has changed. */
  method Reserve(d: Descriptors) returns (ok: bool, f0: int, f1: int, x: int, y: int)
    requires d.Valid()
    modifies d
    ensures d.Valid() && d.closeOnExec == old(d.closeOnExec)
    ensures ok <==> Room(old(d.table), old(d.filp))
    ensures !ok ==> d.table == old(d.table) && d.filp == old(d.filp)
    ensures ok ==>
              f0 == FreeFile(old(d.table), 0) && f1 == NextFile(old(d.table), f0) &&
              x == FreeFd(old(d.filp), 0) && y == NextFd(old(d.filp), x) &&
              0 <= f0 < f1 < NR_FILE && 0 <= x < y < NR_OPEN &&
              old(d.table)[f0].count == 0 && old(d.table)[f1].count == 0 && old(d.filp)[x] == NULL && old(d.filp)[y] == NULL &&
              d.filp == old(d.filp)[x := f0][y := f1] && d.table == Taken(old(d.table), f0, f1)
  {
    ghost var table0, filp0 := d.table, d.filp;
    var j;
    j, f0, f1 := TakeFiles(d);
    x, y := NR_OPEN, NR_OPEN;
    if j == 1 {
      Unclaim(table0, f0);
      d.table := d.table[f0 := d.table[f0].(count := 0)];
    }
    if j < 2 {
      return false, f0, f1, x, y;
    }
    ClaimsTaken(table0, f0, f1);
    var k;
    k, x, y := TakeFds(d, f0, f1);
    if k == 1 {
      Unput(filp0, x, f0);
      d.filp := d.filp[x := NULL];
    }
    if k < 2 {
      GivenTaken(table0, f0, f1);
      d.table := Given(d.table, f0, f1);
      return false, f0, f1, x, y;
    }
    ok := true;
  }

  /** sys_pipe, given the page get_free_page returns (0 for none). It either
      installs a read end (f_mode 1) and a write end (f_mode 2) on one new
      pipe inode, at f_pos 0, in the two lowest free descriptors, or, with
      no two free files, no two free descriptors or no page, gives every
      entry and slot it took back and returns -1. fds are the descriptors
      written to the user's array. A panic in get_empty_inode is passed on. */
  method SysPipe(d: Descriptors, t: Table, supers: map<int, Geometry>, page: int)
    returns (r: int, st: Status, fd0: int, fd1: int)
    requires d.Valid() && t.Valid()
    modifies d, t
    ensures d.Valid() && t.Valid() && d.closeOnExec == old(d.closeOnExec)
    ensures r == 0 || r == -1
    ensures r == 0 ==> st == Done
    ensures st == Done && r == -1 ==> d.table == old(d.table) && d.filp == old(d.filp)
    ensures !Room(old(d.table), old(d.filp)) ==> r == -1 && st == Done && t.inodes == old(t.inodes)
    ensures Room(old(d.table), old(d.filp)) && st == Done ==> (r == 0 <==> page != 0)
    ensures r == 0 ==>
              var f0 := FreeFile(old(d.table), 0);
              var f1 := NextFile(old(d.table), f0);
              var slot := Scan(old(t.inodes), old(t.last), NR_INODE).1;
              Room(old(d.table), old(d.filp)) && fd0 == FreeFd(old(d.filp), 0) && fd1 == NextFd(old(d.filp), fd0) &&
              0 <= f0 < f1 < NR_FILE && 0 <= fd0 < fd1 < NR_OPEN && 0 <= slot < NR_INODE &&
              t.inodes == old(t.inodes)[slot := PipeInode(page)] &&
              d.filp == old(d.filp)[fd0 := f0][fd1 := f1] &&
              d.table == Ends(old(d.table), f0, f1, slot)
  {
    fd0, fd1 := -1, -1;
    st := Done;
    ghost var table0, filp0 := d.table, d.filp;
    var ok, f0, f1, x, y := Reserve(d);
    if !ok {
      return -1, st, fd0, fd1;
    }
    GivenTaken(table0, f0, f1);
    EndsTaken(table0, f0, f1, Scan(t.inodes, t.last, NR_INODE).1);
    UndoFds(filp0, x, y, f0, f1);
    r, st := Connect(d, t, supers, page, f0, f1, x, y);
    if r == 0 {
      fd0, fd1 := x, y;
    }
  }

  /** The end of sys_pipe once the files f0, f1 sit in slots x, y: ask
      for the pipe inode, and give everything back if there is none. */
  method Connect(d: Descriptors, t: Table, supers: map<int, Geometry>, page: int, f0: int, f1: int, x: int, y: int)
    returns (r: int, st: Status)
    requires d.Valid() && t.Valid() && 0 <= f0 < f1 < NR_FILE && 0 <= x < y < NR_OPEN
    modifies d, t
    ensures d.Valid() && t.Valid() && d.closeOnExec == old(d.closeOnExec)
    ensures r == 0 || r == -1
    ensures r == 0 ==> st == Done
    ensures st == Done ==> (r == 0 <==> page != 0)
    ensures st == Done && r == -1 ==>
              d.filp == old(d.filp)[x := NULL][y := NULL] && d.table == Given(old(d.table), f0, f1)
    ensures r == 0 ==>
              var slot := Scan(old(t.inodes), old(t.last), NR_INODE).1;
              0 <= slot < NR_INODE && t.inodes == old(t.inodes)[slot := PipeInode(page)] &&
              d.filp == old(d.filp) && d.table == Ends(old(d.table), f0, f1, slot)
  {
    var idx;
    st, idx := t.GetPipeInode(supers, page);
    if st != Done {
      return -1, st;
    }
    if idx == -1 {
      d.filp := d.filp[x := NULL][y := NULL];
      d.table := Given(d.table, f0, f1);
      return -1, st;
    }
    d.table := Ends(d.table, f0, f1, idx);
    return 0, st;
  }
}
