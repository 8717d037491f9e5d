/** The AT hard-disk driver (kernel/blk_drv/hd.c): the partition table
    hd[], the drive parameters hd_info[] that sys_setup fills in, and the
    request side of the driver, do_hd_request with its interrupt handlers
    read_intr, write_intr, recal_intr and bad_rw_intr. The controller is
    seen through what the handlers are told: whether win_result reported an
    error and whether DRQ came up before a write; what the driver sends it
    is the command returned. The sector data itself is not modelled. The
    disk's request list is a Driver view, CURRENT first. */
module Hd {
  import opened Util
  import opened FsDefs
  import opened Blk
  import opened Driver

  const MAX_ERRORS: int := 7
  const MAX_HD: int := 2

  /** struct hd_i_struct. */
  datatype HdInfo = HdInfo(head: int, sect: int, cyl: int, wpcom: int, lzone: int, ctl: int)

  /** struct hd_struct: the first sector and the size of a partition;
      entries 0 and 5 stand for the whole of drive 0 and 1. */
  datatype Part = Part(startSect: int, nrSects: int)

  /** Cylinder, head and sector (from 1) on drive `drive`. */
  datatype Place = Place(drive: int, sec: int, head: int, cyl: int)

  /** The checks and the two divl instructions of do_hd_request: the
      request is out of range, the divisor is 0 (the CPU's divide error),
      or it lies at a place on a drive. */
  datatype Located = OutOfRange | DivideError | At(p: Place)

  /** The command do_hd_request leaves the controller working on: none
      (the list is empty), WIN_SPECIFY through reset_hd, WIN_RESTORE, WIN_READ
      or WIN_WRITE; or the divide error of a divl by 0. Continue is a
      handler that waits for the next sector's interrupt. */
  datatype HdCmd =
    | Idle
    | Specify(drive: int)
    | Restore(drive: int, nsect: int)
    | ReadCmd(drive: int, nsect: int, at: Place)
    | WriteCmd(drive: int, nsect: int, at: Place)
    | Continue
    | DivideFault

  const MAJOR_HD: int := 3
  const LIST_DESTROYED: string := "harddisk: request list destroyed"
  const BAD_SECTOR: string := "Trying to write bad sector"
  const UNKNOWN_COMMAND: string := "unknown hd-command"

  predicate TablesOk(info: seq<HdInfo>, hd: seq<Part>, nrHd: int)
  {
    |info| == MAX_HD && |hd| == 5 * MAX_HD && 0 <= nrHd <= MAX_HD
  }

  /** do_hd_request's arithmetic for a request on minor `minor` from sector
      `sector`: minor must name a partition of a present drive and the two
      sectors from `sector` must lie in it, both tests on 32-bit unsigned
      values; the sector is then made absolute and split by the drive's
      sectors per track and heads. */
  function Locate(info: seq<HdInfo>, hd: seq<Part>, nrHd: int, minor: int, sector: int): Located
    requires TablesOk(info, hd, nrHd) && 0 <= minor < 256
  {
    if minor >= 5 * nrHd || Unsigned(sector + 2) > Unsigned(hd[minor].nrSects) then OutOfRange
    else
      var abs := Unsigned(sector + hd[minor].startSect);
      var d := minor / 5;
      var sect, heads := Unsigned(info[d].sect), Unsigned(info[d].head);
      if sect == 0 || heads == 0 then DivideError
      else
        var track := abs / sect;
        At(Place(d, abs % sect + 1, track % heads, track / heads))
  }

  lemma TrackSplit(abs: int, sect: int, heads: int, sec: int, head: int, cyl: int)
    requires abs >= 0 && sect > 0 && heads > 0
    requires sec == abs % sect + 1 && head == (abs / sect) % heads && cyl == (abs / sect) / heads
    ensures (cyl * heads + head) * sect + sec - 1 == abs
  {
    var track := abs / sect;
    assert cyl * heads + head == track;
    assert track * sect + abs % sect == abs;
  }

  /** The place is the absolute sector written in cylinders, heads and
      sectors: sector numbers run from 1 to sect, heads from 0 to heads - 1,
      and the place is found on the drive of the partition. */
  lemma LocateMeans(info: seq<HdInfo>, hd: seq<Part>, nrHd: int, minor: int, sector: int)
    requires TablesOk(info, hd, nrHd) && 0 <= minor < 256
    ensures var r := Locate(info, hd, nrHd, minor, sector);
            (r == OutOfRange <==> minor >= 5 * nrHd || Unsigned(sector + 2) > Unsigned(hd[minor].nrSects)) &&
            (r.At? ==>
               var sect, heads := Unsigned(info[minor / 5].sect), Unsigned(info[minor / 5].head);
               r.p.drive == minor / 5 < nrHd && 1 <= r.p.sec <= sect && 0 <= r.p.head < heads &&
               (r.p.cyl * heads + r.p.head) * sect + r.p.sec - 1 == Unsigned(sector + hd[minor].startSect))
  {
    var r := Locate(info, hd, nrHd, minor, sector);
    if r.At? {
      var sect, heads := Unsigned(info[minor / 5].sect), Unsigned(info[minor / 5].head);
      TrackSplit(Unsigned(sector + hd[minor].startSect), sect, heads, r.p.sec, r.p.head, r.p.cyl);
    }
  }

  /** bad_rw_intr on the list q: CURRENT's error count goes up by one and
      the request fails when it reaches MAX_ERRORS; the count that decides
      on a reset is then read from CURRENT, which end_request has already
      moved to the next request. With none left that read goes through
      NULL and finds whatever word lies there, `junk`. */
  datatype BadRw = BadRw(queue: seq<Request>, failed: Option<Request>, reset: bool, nullRead: bool)

  function AfterBadRw(q: seq<Request>, reset: bool, junk: int): (r: BadRw)
    requires q != []
    ensures r.failed.Some? <==> q[0].errors + 1 >= MAX_ERRORS
    ensures r.failed.Some? ==> r.failed.value == q[0].(errors := q[0].errors + 1) && r.queue == q[1..]
    ensures r.failed.None? ==> r.queue == [q[0].(errors := q[0].errors + 1)] + q[1..]
    ensures r.nullRead <==> r.queue == []
    ensures reset ==> r.reset
  {
    var c := q[0].(errors := q[0].errors + 1);
    var q' := if c.errors >= MAX_ERRORS then q[1..] else [c] + q[1..];
    var failed := if c.errors >= MAX_ERRORS then Some(c) else None;
    var seen := if q' == [] then junk else q'[0].errors;
    BadRw(q', failed, reset || seen > MAX_ERRORS / 2, q' == [])
  }

  /** A request that keeps failing is retried until its seventh error, and
      a reset is asked for from its fourth error on while it stays current. */
  lemma RetriesThenFails(q: seq<Request>, reset: bool, junk: int)
    requires q != [] && 0 <= q[0].errors < MAX_ERRORS
    ensures var r := AfterBadRw(q, reset, junk);
            (q[0].errors < MAX_ERRORS - 1 ==> r.failed == None && r.reset == (reset || q[0].errors + 1 > 3)) &&
            (q[0].errors == MAX_ERRORS - 1 ==> r.failed == Some(q[0].(errors := MAX_ERRORS)))
  {
  }

  /** When the seventh error fails a request, the reset test looks at the
      request after it: with that one error-free, no reset is asked for,
      although the failed request had had more errors than MAX_ERRORS / 2. */
  lemma FailureSkipsReset(r: Request, s: Request, junk: int)
    requires r.errors == MAX_ERRORS - 1 && s.errors == 0
    ensures var b := AfterBadRw([r, s], false, junk);
            b.failed.Some? && b.failed.value.errors > MAX_ERRORS / 2 && !b.reset && !b.nullRead
  {
  }

  /** When it fails the last request, the reset test depends only on the
      word read through NULL. */
  lemma LastFailureReadsNull(r: Request, junk: int)
    requires r.errors == MAX_ERRORS - 1
    ensures var b := AfterBadRw([r], false, junk);
            b.nullRead && b.queue == [] && (b.reset <==> junk > MAX_ERRORS / 2)
  {
  }

  /** read_intr's step after a good sector: errors cleared, the buffer and
      the sector one sector on, one sector fewer to go (an unsigned long). */
  function ReadAdvance(r: Request): Request
  {
    r.(errors := 0, buffer := r.buffer + 512, sector := r.sector + 1, nrSectors := Unsigned(r.nrSectors - 1))
  }

  /** write_intr's step after a good sector: one sector fewer to go and,
      when some remain, the buffer and the sector one sector on. */
  function WriteAdvance(r: Request): Request
  {
    var n := Unsigned(r.nrSectors - 1);
    if n != 0 then r.(nrSectors := n, sector := r.sector + 1, buffer := r.buffer + 512) else r.(nrSectors := n)
  }

  function Reads(r: Request, k: nat): Request
  {
    if k == 0 then r else ReadAdvance(Reads(r, k - 1))
  }

  function Writes(r: Request, k: nat): Request
  {
    if k == 0 then r else WriteAdvance(Writes(r, k - 1))
  }

  /** After k good sectors of a read of n, the buffer and the sector have
      moved k sectors on and n - k remain: the read ends at the n-th
      interrupt and not before. */
  lemma {:induction false} ReadsMove(r: Request, k: nat)
    requires 0 < k <= r.nrSectors < 0x1_0000_0000
    ensures var t := Reads(r, k);
            t.buffer == r.buffer + 512 * k && t.sector == r.sector + k && t.nrSectors == r.nrSectors - k && t.errors == 0
  {
    if k > 1 {
      ReadsMove(r, k - 1);
    }
  }

  /** A write of n sectors ends at its n-th interrupt too, but its buffer
      and sector stop at the last sector written: n - 1 sectors on. */
  lemma {:induction false} WritesMove(r: Request, k: nat)
    requires 0 <= k <= r.nrSectors < 0x1_0000_0000
    ensures var t := Writes(r, k);
            t.nrSectors == r.nrSectors - k && t.errors == r.errors &&
            t.buffer == r.buffer + 512 * (if k == r.nrSectors && k > 0 then k - 1 else k) &&
            t.sector == r.sector + (if k == r.nrSectors && k > 0 then k - 1 else k)
  {
    if k > 0 {
      WritesMove(r, k - 1);
    }
  }

  class HardDisk {
    var info: seq<HdInfo>
    var nrHd: int
    var hd: seq<Part>
    var reset: bool
    var recalibrate: bool
    /** sys_setup's static callable. */
    var callable: bool
    /** The disk's request list, CURRENT first. */
    var queue: seq<Request>
    /** The requests end_request retired, in order. */
    var ended: seq<Ended>

    ghost predicate Valid()
      reads this
    {
      TablesOk(info, hd, nrHd)
    }

    /** The driver as the kernel image holds it: no drives, both flags set. */
    constructor ()
      ensures Valid() && callable && reset && recalibrate && nrHd == 0 && queue == [] && ended == []
      ensures forall i :: 0 <= i < 5 * MAX_HD ==> hd[i] == Part(0, 0)
    {
      info := [HdInfo(0, 0, 0, 0, 0, 0), HdInfo(0, 0, 0, 0, 0, 0)];
      nrHd := 0;
      hd := seq(5 * MAX_HD, _ => Part(0, 0));
      reset, recalibrate, callable := true, true, true;
      queue, ended := [], [];
    }

    method EndRequest(uptodate: bool)
      requires queue != []
      modifies this`queue, this`ended
      ensures queue == old(queue[1..]) && ended == old(ended) + [Ended(old(queue[0]), uptodate)]
    {
      ended := ended + [Ended(queue[0], uptodate)];
      queue := queue[1..];
    }

    /** bad_rw_intr, as AfterBadRw says. */
    method BadRwIntr(junk: int)
      requires queue != []
      modifies this`queue, this`ended, this`reset
      ensures var b := AfterBadRw(old(queue), old(reset), junk);
              queue == b.queue && reset == b.reset &&
              ended == old(ended) + (if b.failed.Some? then [Ended(b.failed.value, false)] else [])
      ensures Extends(old(ended), ended)
    {
      queue := queue[0 := queue[0].(errors := queue[0].errors + 1)];
      if queue[0].errors >= MAX_ERRORS {
        EndRequest(false);
      }
      var seen := if queue == [] then junk else queue[0].errors;
      if seen > MAX_ERRORS / 2 {
        reset := true;
      }
      assert ended[|old(ended)|..] == ended[|old(ended)|..];
    }

    /** do_hd_request. INIT_REQUEST's test of the major comes first. A
        request out of range fails and the next is tried; for one in range
        the controller is reset when reset is set, recalibrated when
        recalibrate is, and else sent the read or the write; hd_out refuses
        a head above 15. drq says whether DRQ comes up after WIN_WRITE; when
        it does not, bad_rw_intr counts an error (junk is what it reads
        through NULL) and the list is scanned again. Every request this
        retires has failed. */
    method DoHdRequest(drq: bool, junk: int) returns (st: Status, cmd: HdCmd)
      requires Valid()
      modifies this`queue, this`ended, this`reset, this`recalibrate
      ensures Valid() && Extends(old(ended), ended) && |queue| <= |old(queue)|
      ensures st == Done && (cmd.ReadCmd? || cmd.WriteCmd?) ==>
                queue != [] && cmd.nsect == queue[0].nrSectors && cmd.drive == cmd.at.drive && cmd.at.head <= 15 &&
                Locate(info, hd, nrHd, Minor(queue[0].dev), queue[0].sector) == At(cmd.at) &&
                !reset && !recalibrate &&
                (cmd.ReadCmd? <==> queue[0].cmd == READ) && (cmd.WriteCmd? ==> queue[0].cmd == WRITE)
      ensures st == Done && cmd.Specify? ==> queue != [] && cmd.drive == Minor(queue[0].dev) / 5 && !reset && recalibrate
      ensures st == Done && cmd.Restore? ==> queue != [] && !reset && !recalibrate
      ensures st == Done ==> (cmd == Idle <==> queue == []) && cmd != Continue
      ensures st == Done && cmd == DivideFault ==> queue != [] && Locate(info, hd, nrHd, Minor(queue[0].dev), queue[0].sector) == DivideError
      ensures st == Panic(LIST_DESTROYED) <==> queue != [] && Major(queue[0].dev) != MAJOR_HD
      ensures st == Panic(UNKNOWN_COMMAND) ==> queue != [] && queue[0].cmd != READ && queue[0].cmd != WRITE
      ensures st == Done || st == Panic(LIST_DESTROYED) || st == Panic(BAD_SECTOR) || st == Panic(UNKNOWN_COMMAND)
    {
      while queue != []
        invariant Valid() && Extends(old(ended), ended) && |queue| <= |old(queue)|
        decreases |queue|, if queue != [] && queue[0].errors < MAX_ERRORS then MAX_ERRORS - queue[0].errors else 0
      {
        var r := queue[0];
        if Major(r.dev) != MAJOR_HD {
          return Panic(LIST_DESTROYED), Idle;
        }
        var loc := Locate(info, hd, nrHd, Minor(r.dev), r.sector);
        if loc == OutOfRange {
          ghost var e := ended;
          EndRequest(false);
          ExtendsFail(old(ended), e, r);
          continue;
        }
        if loc == DivideError {
          return Done, DivideFault;
        }
        var at := loc.p;
        if reset {
          reset, recalibrate := false, true;
          if Unsigned(info[at.drive].head - 1) > 15 {
            return Panic(BAD_SECTOR), Idle;
          }
          return Done, Specify(at.drive);
        }
        if recalibrate {
          recalibrate := false;
          return Done, Restore(at.drive, info[at.drive].sect);
        }
        if r.cmd == WRITE {
          if at.head > 15 {
            return Panic(BAD_SECTOR), Idle;
          }
          if !drq {
            ghost var e := ended;
            BadRwIntr(junk);
            ExtendsTrans(old(ended), e, ended);
            continue;
          }
          return Done, WriteCmd(at.drive, r.nrSectors, at);
        } else if r.cmd == READ {
          if at.head > 15 {
            return Panic(BAD_SECTOR), Idle;
          }
          return Done, ReadCmd(at.drive, r.nrSectors, at);
        } else {
          return Panic(UNKNOWN_COMMAND), Idle;
        }
      }
      return Done, Idle;
    }

    /** read_intr. On win_result's error: bad_rw_intr, then do_hd_request.
        Else the sector is taken: CURRENT advances, and the handler waits
        for the next sector, or the request succeeds and the next one is
        started. */
    method ReadIntr(winError: bool, drq: bool, junk: int) returns (st: Status, cmd: HdCmd)
      requires Valid() && queue != []
      modifies this`queue, this`ended, this`reset, this`recalibrate
      ensures Valid() && |old(ended)| <= |ended| && ended[..|old(ended)|] == old(ended)
      ensures winError ==> Extends(old(ended), ended)
      ensures !winError && ReadAdvance(old(queue[0])).nrSectors != 0 ==>
                st == Done && cmd == Continue && queue == [ReadAdvance(old(queue[0]))] + old(queue[1..]) && ended == old(ended)
      ensures !winError && ReadAdvance(old(queue[0])).nrSectors == 0 ==>
                |ended| > |old(ended)| && ended[|old(ended)|] == Ended(ReadAdvance(old(queue[0])), true) &&
                Extends(old(ended) + [ended[|old(ended)|]], ended)
    {
      if winError {
        BadRwIntr(junk);
        ghost var e := ended;
        st, cmd := DoHdRequest(drq, junk);
        ExtendsTrans(old(ended), e, ended);
        return;
      }
      queue := queue[0 := ReadAdvance(queue[0])];
      if queue[0].nrSectors != 0 {
        return Done, Continue;
      }
      EndRequest(true);
      ghost var e := ended;
      st, cmd := DoHdRequest(drq, junk);
      assert ended[..|old(ended)|] == e[..|old(ended)|];
    }

    /** write_intr, as read_intr with WriteAdvance; after the last sector
        the request succeeds and the next one is started. */
    method WriteIntr(winError: bool, drq: bool, junk: int) returns (st: Status, cmd: HdCmd)
      requires Valid() && queue != []
      modifies this`queue, this`ended, this`reset, this`recalibrate
      ensures Valid() && |old(ended)| <= |ended| && ended[..|old(ended)|] == old(ended)
      ensures winError ==> Extends(old(ended), ended)
      ensures !winError && WriteAdvance(old(queue[0])).nrSectors != 0 ==>
                st == Done && cmd == Continue && queue == [WriteAdvance(old(queue[0]))] + old(queue[1..]) && ended == old(ended)
      ensures !winError && WriteAdvance(old(queue[0])).nrSectors == 0 ==>
                |ended| > |old(ended)| && ended[|old(ended)|] == Ended(WriteAdvance(old(queue[0])), true) &&
                Extends(old(ended) + [ended[|old(ended)|]], ended)
    {
      if winError {
        BadRwIntr(junk);
        ghost var e := ended;
        st, cmd := DoHdRequest(drq, junk);
        ExtendsTrans(old(ended), e, ended);
        return;
      }
      queue := queue[0 := WriteAdvance(queue[0])];
      if queue[0].nrSectors != 0 {
        return Done, Continue;
      }
      EndRequest(true);
      ghost var e := ended;
      st, cmd := DoHdRequest(drq, junk);
      assert ended[..|old(ended)|] == e[..|old(ended)|];
    }

    /** recal_intr: bad_rw_intr on win_result's error, then do_hd_request. */
    method RecalIntr(winError: bool, drq: bool, junk: int) returns (st: Status, cmd: HdCmd)
      requires Valid() && queue != []
      modifies this`queue, this`ended, this`reset, this`recalibrate
      ensures Valid() && Extends(old(ended), ended)
      ensures !winError ==> |queue| <= |old(queue)|
    {
      if winError {
        BadRwIntr(junk);
      }
      ghost var e := ended;
      st, cmd := DoHdRequest(drq, junk);
      ExtendsTrans(old(ended), e, ended);
    }

    /** sys_setup(BIOS): once only. The parameters of both drives come
        from the 32 bytes at BIOS, 16 for each; there is a second drive when
        its cylinder count is not 0, and entry 0 of each drive found covers
        heads * sectors * cylinders sectors (an int product, wrapped). Then
        CMOS byte 0x12 decides: no AT drive when its high nibble is 0, else
        two when its low nibble is not 0; entry 0 of a drive beyond that is
        cleared. Each drive's first block (tables[d], None when bread fails)
        must be readable and end in 0x55 0xAA, and the four partition
        entries at 0x1BE fill the drive's entries 1 to 4. */
    method SysSetup(bios: seq<Byte>, cmos: Byte, tables: seq<Option<seq<Byte>>>) returns (r: int, st: Status)
      requires Valid() && |bios| == 32 && |tables| == MAX_HD
      requires forall d :: 0 <= d < MAX_HD && tables[d].Some? ==> |tables[d].value| == BLOCK_SIZE
      modifies this`info, this`nrHd, this`hd, this`callable
      ensures Valid() && !callable
      ensures !old(callable) ==> r == -1 && st == Done && info == old(info) && nrHd == old(nrHd) && hd == old(hd)
      ensures old(callable) ==>
                info == [BiosInfo(bios, 0), BiosInfo(bios, 16)] && nrHd == CmosDrives(cmos) &&
                (st == Done <==> forall d :: 0 <= d < nrHd ==> TableOk(tables[d])) &&
                (st != Done ==> st == Panic("")) &&
                (st == Done ==> r == 0 && forall i :: 0 <= i < 5 * MAX_HD ==> hd[i] == SetupPart(info, old(hd), nrHd, tables, i))
    {
      if !callable {
        return -1, Done;
      }
      callable := false;
      info := [BiosInfo(bios, 0), BiosInfo(bios, 16)];
      nrHd := BiosDrives(info);
      SetWholeDrives();
      ghost var h1 := hd;
      nrHd := CmosDrives(cmos);
      ClearAbsent();
      ghost var h2 := hd;
      var ok := ReadTables(tables);
      if !ok {
        return -1, Panic("");
      }
      forall i | 0 <= i < 5 * MAX_HD
        ensures hd[i] == SetupPart(info, old(hd), nrHd, tables, i)
      {
        assert h2[i] == if i % 5 == 0 && nrHd <= i / 5 then Part(0, 0) else h1[i];
      }
      return 0, Done;
    }

    /** The first loop of sys_setup: entry 0 of each of the nrHd drives
        covers the drive. */
    method SetWholeDrives()
      requires Valid()
      modifies this`hd
      ensures Valid()
      ensures forall k :: 0 <= k < 5 * MAX_HD ==> hd[k] == if k % 5 == 0 && k / 5 < nrHd then WholeDrive(info[k / 5]) else old(hd)[k]
    {
      var b := 0;
      while b < nrHd
        invariant Valid() && 0 <= b <= nrHd
        invariant forall k :: 0 <= k < 5 * MAX_HD ==> hd[k] == if k % 5 == 0 && k / 5 < b then WholeDrive(info[k / 5]) else old(hd)[k]
      {
        hd := hd[5 * b := WholeDrive(info[b])];
        b := b + 1;
      }
    }

    /** The second loop: entry 0 of each drive from nrHd up is cleared. */
    method ClearAbsent()
      requires Valid()
      modifies this`hd
      ensures Valid()
      ensures forall k :: 0 <= k < 5 * MAX_HD ==> hd[k] == if k % 5 == 0 && nrHd <= k / 5 then Part(0, 0) else old(hd)[k]
    {
      var i := nrHd;
      while i < MAX_HD
        invariant Valid() && nrHd <= i <= MAX_HD
        invariant forall k :: 0 <= k < 5 * MAX_HD ==> hd[k] == if k % 5 == 0 && nrHd <= k / 5 < i then Part(0, 0) else old(hd)[k]
      {
        hd := hd[5 * i := Part(0, 0)];
        i := i + 1;
      }
    }

    /** The third loop: each of the nrHd drives' first block must carry the
        mark, and its four entries fill the drive's partitions. ok is false
        at the first that does not, where sys_setup panics. */
    method ReadTables(tables: seq<Option<seq<Byte>>>) returns (ok: bool)
      requires Valid() && |tables| == MAX_HD
      requires forall d :: 0 <= d < MAX_HD && tables[d].Some? ==> |tables[d].value| == BLOCK_SIZE
      modifies this`hd
      ensures Valid()
      ensures ok <==> forall d :: 0 <= d < nrHd ==> TableOk(tables[d])
      ensures ok ==> forall k :: 0 <= k < 5 * MAX_HD ==>
                       hd[k] == if k % 5 != 0 && k / 5 < nrHd then TableEntry(tables[k / 5].value, k % 5) else old(hd)[k]
    {
      var drive := 0;
      while drive < nrHd
        invariant Valid() && 0 <= drive <= nrHd
        invariant forall d :: 0 <= d < drive ==> TableOk(tables[d])
        invariant forall k :: 0 <= k < 5 * MAX_HD ==>
                    hd[k] == if k % 5 != 0 && k / 5 < drive then TableEntry(tables[k / 5].value, k % 5) else old(hd)[k]
        decreases nrHd - drive
      {
        if !TableOk(tables[drive]) {
          return false;
        }
        var data := tables[drive].value;
        var j := 1;
        while j < 5
          invariant Valid() && 1 <= j <= 5
          invariant forall k :: 0 <= k < 5 * MAX_HD ==>
                      hd[k] == if k % 5 != 0 && (k / 5 < drive || (k / 5 == drive && k % 5 < j)) then TableEntry(tables[k / 5].value, k % 5) else old(hd)[k]
        {
          hd := hd[j + 5 * drive := TableEntry(data, j)];
          j := j + 1;
        }
        drive := drive + 1;
      }
      return true;
    }
  }

  /** A drive's parameters from its 16 bytes of the BIOS table at off. */
  function BiosInfo(bios: seq<Byte>, off: int): HdInfo
    requires 0 <= off && off + 16 <= |bios|
  {
    HdInfo(bios[off + 2] as int, bios[off + 14] as int, Le16(bios, off), Le16(bios, off + 5), Le16(bios, off + 12), bios[off + 8] as int)
  }

  /** The number of AT-compatible drives CMOS byte 0x12 reports. */
  function CmosDrives(cmos: Byte): (n: int)
    ensures 0 <= n <= MAX_HD
  {
    if cmos / 16 != 0 then (if cmos % 16 != 0 then 2 else 1) else 0
  }

  /** hd[5 * drive]: the whole drive, heads * sectors * cylinders sectors
      wrapped to 32 bits. */
  function WholeDrive(i: HdInfo): Part
  {
    Part(0, Unsigned(i.head * i.sect * i.cyl))
  }

  /** A drive's first block is readable and carries the 0x55 0xAA mark. */
  predicate TableOk(t: Option<seq<Byte>>)
  {
    t.Some? && |t.value| == BLOCK_SIZE && t.value[510] == 0x55 && t.value[511] == 0xAA
  }

  /** Partition i (1 to 4) of a partition table: the start_sect and
      nr_sects fields of entry i - 1 at 0x1BE. */
  function TableEntry(data: seq<Byte>, i: int): Part
    requires |data| == BLOCK_SIZE && 1 <= i <= 4
  {
    var e := 0x1BE + 16 * (i - 1);
    Part(Le32(data, e + 8), Le32(data, e + 12))
  }

  /** The number of drives the BIOS table shows: a second one when its
      cylinder count is not 0. */
  function BiosDrives(info: seq<HdInfo>): (n: int)
    requires |info| == MAX_HD
    ensures 1 <= n <= MAX_HD
  {
    if info[1].cyl != 0 then 2 else 1
  }

  /** hd[i] after a sys_setup that succeeds: for a drive CMOS reports, the
      partitions its table gives, and entry 0 covering the drive when the
      BIOS table shows it too; entry 0 of any other drive cleared; the rest
      as before. */
  function SetupPart(info: seq<HdInfo>, hd: seq<Part>, nrHd: int, tables: seq<Option<seq<Byte>>>, i: int): Part
    requires |info| == MAX_HD && |hd| == 5 * MAX_HD && |tables| == MAX_HD && 0 <= nrHd <= MAX_HD && 0 <= i < 5 * MAX_HD
    requires forall d :: 0 <= d < nrHd ==> TableOk(tables[d])
  {
    var d := i / 5;
    if i % 5 != 0 then (if d < nrHd then assert TableOk(tables[d]); TableEntry(tables[d].value, i % 5) else hd[i])
    else if d >= nrHd then Part(0, 0)
    else if d < BiosDrives(info) then WholeDrive(info[d])
    else hd[i]
  }
}
