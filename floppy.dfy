/** The request side of the floppy driver (kernel/blk_drv/floppy.c): the
    table of diskette types, do_fd_request's choice of type, its bounds test
    and its block-to-track arithmetic, its decision to seek, and bad_flp_intr.
    What the controller is sent is the step returned; the FDC's replies,
    DMA and the motor timers are not modelled. The list is a Driver view,
    CURRENT first. */
module Floppy {
  import opened Util
  import opened FsDefs
  import opened Blk
  import opened Driver

  const MAX_ERRORS: int := 8
  const MAJOR_FD: int := 2
  const FD_READ: int := 0xE6
  const FD_WRITE: int := 0xC5
  const LIST_DESTROYED: string := "floppy: request list destroyed"
  const UNKNOWN_COMMAND: string := "do_fd_request: unknown command"

  /** struct floppy_struct, the fields do_fd_request uses: size in
      sectors, sectors per track, heads, tracks, and whether tracks are
      doubled. */
  datatype FloppyType = FloppyType(size: int, sect: int, head: int, track: int, stretch: int)

  /** floppy_type[]: entry 0 is the "no testing" type. */
  const FloppyTypes: seq<FloppyType> := [
    FloppyType(0, 0, 0, 0, 0),
    FloppyType(720, 9, 2, 40, 0),
    FloppyType(2400, 15, 2, 80, 0),
    FloppyType(720, 9, 2, 40, 1),
    FloppyType(1440, 9, 2, 80, 0),
    FloppyType(720, 9, 2, 40, 1),
    FloppyType(1440, 9, 2, 80, 0),
    FloppyType(2880, 18, 2, 80, 0)
  ]

  predicate TypeOk(f: FloppyType)
  {
    0 <= f.size && 0 <= f.sect && 0 <= f.head && 0 <= f.stretch < 32
  }

  /** TYPE(minor): minor >> 2 indexes floppy_type; from minor 32 on it
      indexes past the table's end, which the driver does not check. */
  function TypeOf(minor: int): (r: Option<FloppyType>)
    requires 0 <= minor < 256
    ensures r.Some? <==> minor < 4 * |FloppyTypes|
    ensures r.Some? ==> r.value == FloppyTypes[minor / 4] && TypeOk(r.value)
  {
    if minor / 4 < |FloppyTypes| then Some(FloppyTypes[minor / 4]) else None
  }

  /** The statics sector, head, track and seek_track, all unsigned char. */
  datatype Geometry = Geometry(sector: int, head: int, track: int, seekTrack: int)

  /** do_fd_request's arithmetic for a request from `block` (in sectors)
      on type f: None when the two sectors from block do not fit (unsigned
      int comparison), else the place, truncated to unsigned char as the
      statics hold it. */
  function Place(f: FloppyType, block: int): Option<Geometry>
    requires TypeOk(f)
  {
    if Unsigned(Unsigned(block) + 2) > f.size then None
    else if f.sect == 0 || f.head == 0 then None
    else
      var b := Unsigned(block);
      var t := (b / f.sect) / f.head;
      Some(Geometry((b % f.sect) % 256 + 1, ((b / f.sect) % f.head) % 256, t % 256, (Shl(t % 256, f.stretch)) % 256))
  }

  function Shl(x: int, n: int): int
    requires 0 <= n
  {
    if n == 0 then x else 2 * Shl(x, n - 1)
  }

  /** For every table type the test before the divisions keeps them from
      dividing by 0: type 0 has size 0, so each of its requests fails. */
  lemma NoTestingAlwaysFails(block: int)
    ensures Place(FloppyTypes[0], block) == None
  {
  }

  lemma ModSmall(x: int, m: int)
    requires 0 <= x < m
    ensures x % m == x
  {
  }

  lemma MulMono(a: int, b: int, d: int)
    requires 0 <= a <= b && d > 0
    ensures d * a <= d * b
  {
  }

  /** x < d * n bounds x / d by n. */
  lemma DivLess(x: int, d: int, n: int)
    requires 0 <= x && d > 0 && x < d * n
    ensures 0 <= x / d < n
  {
    if x / d >= n {
      MulMono(n, x / d, d);
    }
  }

  lemma TrackSplit(b: int, sect: int, heads: int)
    requires b >= 0 && sect > 0 && heads > 0
    ensures ((b / sect) / heads * heads + (b / sect) % heads) * sect + b % sect == b
  {
    var t := b / sect;
    assert t / heads * heads + t % heads == t;
    assert t * sect + b % sect == b;
  }

  /** A type that is laid out as the table's real types are. */
  predicate Regular(f: FloppyType)
  {
    TypeOk(f) && 0 < f.sect < 256 && 0 < f.head < 256 && 0 <= f.track <= 128 && f.size < 0x1_0000 &&
    f.size == f.sect * (f.head * f.track) && (f.stretch == 0 || f.stretch == 1) && Shl(f.track, f.stretch) <= 256
  }

  lemma RegularPlace(f: FloppyType, b: int)
    requires Regular(f) && 0 <= b && b + 2 <= f.size
    ensures var q := b / f.sect;
            Place(f, b) == Some(Geometry(b % f.sect + 1, q % f.head, q / f.head, q / f.head * (if f.stretch == 1 then 2 else 1))) &&
            q / f.head < f.track
  {
    var q := b / f.sect;
    var ht := f.head * f.track;
    DivLess(b, f.sect, ht);
    assert 0 <= q < ht;
    DivLess(q, f.head, f.track);
    var tr := q / f.head;
    assert Unsigned(Unsigned(b) + 2) == b + 2;
    ModSmall(b % f.sect, 256);
    ModSmall(q % f.head, 256);
    ModSmall(tr, 256);
    assert Shl(tr, f.stretch) == tr * (if f.stretch == 1 then 2 else 1) < 256 by {
      if f.stretch == 1 {
        assert Shl(tr, 1) == 2 * Shl(tr, 0);
        assert Shl(f.track, 1) == 2 * Shl(f.track, 0);
      }
    }
    ModSmall(Shl(tr, f.stretch), 256);
  }

  /** Each real type of the table is regular. */
  lemma TableIsRegular(t: int)
    requires 1 <= t < |FloppyTypes|
    ensures Regular(FloppyTypes[t])
  {
    assert Shl(40, 1) == 2 * Shl(40, 0);
  }

  /** A request that fits a table type is placed exactly: sector from 1 to
      sect, head below heads, track below tracks, and (track, head,
      sector) written back in sectors is the block; the seek track is the
      track, doubled for the stretched types. */
  lemma PlaceMeans(t: int, block: int)
    requires 1 <= t < |FloppyTypes| && 0 <= block < 0x1_0000_0000 - 2
    ensures var f := FloppyTypes[t];
            var g := Place(f, block);
            (g.Some? <==> block + 2 <= f.size) &&
            (g.Some? ==> 1 <= g.value.sector <= f.sect && 0 <= g.value.head < f.head && g.value.track < f.track &&
                         (g.value.track * f.head + g.value.head) * f.sect + g.value.sector - 1 == block &&
                         g.value.seekTrack == g.value.track * (if f.stretch == 1 then 2 else 1))
  {
    var f := FloppyTypes[t];
    TableIsRegular(t);
    if block + 2 <= f.size {
      RegularPlace(f, block);
      TrackSplit(block, f.sect, f.head);
    }
  }

  /** bad_flp_intr on the list q: one more error on CURRENT, which fails
      after its ninth; then, on the CURRENT that is left (a read through
      NULL, finding `junk`, when there is none), more than MAX_ERRORS / 2
      errors ask for a reset and fewer for a recalibration. */
  datatype BadFlp = BadFlp(queue: seq<Request>, failed: Option<Request>, reset: bool, recalibrate: bool, nullRead: bool)

  function AfterBadFlp(q: seq<Request>, reset: bool, recalibrate: bool, junk: int): (r: BadFlp)
    requires q != []
    ensures r.failed.Some? <==> q[0].errors + 1 > MAX_ERRORS
    ensures r.failed.Some? ==> r.failed.value == q[0].(errors := q[0].errors + 1) && r.queue == q[1..]
    ensures r.failed.None? ==> r.queue == [q[0].(errors := q[0].errors + 1)] + q[1..]
    ensures r.nullRead <==> r.queue == []
    ensures (reset ==> r.reset) && (recalibrate ==> r.recalibrate) && (r.reset || r.recalibrate)
  {
    var c := q[0].(errors := q[0].errors + 1);
    var q' := if c.errors > MAX_ERRORS then q[1..] else [c] + q[1..];
    var failed := if c.errors > MAX_ERRORS then Some(c) else None;
    var seen := if q' == [] then junk else q'[0].errors;
    if seen > MAX_ERRORS / 2 then BadFlp(q', failed, true, recalibrate, q' == [])
    else BadFlp(q', failed, reset, true, q' == [])
  }

  /** A request that keeps failing is retried eight times and fails at its
      ninth error; while it is retried the first four errors recalibrate
      and the later ones reset. */
  lemma RetriesThenFails(q: seq<Request>, junk: int)
    requires q != [] && 0 <= q[0].errors <= MAX_ERRORS
    ensures var r := AfterBadFlp(q, false, false, junk);
            (q[0].errors < MAX_ERRORS ==> r.failed == None && (r.reset <==> q[0].errors >= 4) && (r.recalibrate <==> q[0].errors < 4)) &&
            (q[0].errors == MAX_ERRORS ==> r.failed == Some(q[0].(errors := MAX_ERRORS + 1)))
  {
  }

  /** The step do_fd_request ends on: the reset or recalibration it starts,
      nothing (the list is empty), a read past floppy_type[], or the motor
      timer it sets for the transfer with FD_READ or FD_WRITE. */
  datatype FdStep = ResetFloppy | RecalibrateFloppy | Idle | BeyondTable | StartTransfer(command: int)

  /** What Prepare found: a request past the table, one that does not fit
      its type, or one ready to be transferred. */
  datatype Prep = Beyond | Misfit | Ready

  class FloppyDisk {
    var reset: bool
    var recalibrate: bool
    var seek: bool
    var currentDrive: int
    var currentTrack: int
    /** The type do_fd_request chose; None when it read past the table. */
    var floppy: Option<FloppyType>
    var geometry: Geometry
    var command: int
    var curSpec1: int
    var curRate: int
    var queue: seq<Request>
    var ended: seq<Ended>

    ghost predicate Valid()
      reads this
    {
      floppy.Some? ==> TypeOk(floppy.value)
    }

    /** The driver as the kernel image holds it. */
    constructor ()
      ensures Valid()
      ensures !reset && !recalibrate && !seek && currentDrive == 0 && currentTrack == 255
      ensures floppy == Some(FloppyTypes[0]) && geometry == Geometry(0, 0, 0, 0) && command == 0
      ensures curSpec1 == -1 && curRate == -1 && queue == [] && ended == []
    {
      reset, recalibrate, seek := false, false, false;
      currentDrive, currentTrack := 0, 255;
      floppy := Some(FloppyTypes[0]);
      geometry := Geometry(0, 0, 0, 0);
      command, curSpec1, curRate := 0, -1, -1;
      queue, ended := [], [];
    }

    method EndRequest(uptodate: bool)
      requires queue != []
      modifies this`queue, this`ended
      ensures queue == old(queue[1..]) && ended == old(ended) + [Ended(old(queue[0]), uptodate)]
    {
      ended := ended + [Ended(queue[0], uptodate)];
      queue := queue[1..];
    }

    /** bad_flp_intr, as AfterBadFlp says. */
    method BadFlpIntr(junk: int)
      requires queue != []
      modifies this`queue, this`ended, this`reset, this`recalibrate
      ensures var b := AfterBadFlp(old(queue), old(reset), old(recalibrate), junk);
              queue == b.queue && reset == b.reset && recalibrate == b.recalibrate &&
              ended == old(ended) + (if b.failed.Some? then [Ended(b.failed.value, false)] else [])
      ensures Extends(old(ended), ended)
    {
      queue := queue[0 := queue[0].(errors := queue[0].errors + 1)];
      if queue[0].errors > MAX_ERRORS {
        EndRequest(false);
      }
      var seen := if queue == [] then junk else queue[0].errors;
      if seen > MAX_ERRORS / 2 {
        reset := true;
      } else {
        recalibrate := true;
      }
      assert ended[|old(ended)|..] == ended[|old(ended)|..];
    }

    /** The part of do_fd_request's scan that looks at request r: its
        type, its drive (a change of drive calls for a seek) and, when r fits
        the type, its place (a seek track other than the current track
        calls for a seek too). */
    method Prepare(r: Request) returns (prep: Prep)
      requires Valid()
      modifies this`floppy, this`seek, this`currentDrive, this`geometry
      ensures Valid() && floppy == TypeOf(Minor(r.dev))
      ensures prep == Beyond <==> floppy.None?
      ensures floppy.None? ==> currentDrive == old(currentDrive) && geometry == old(geometry) && seek == old(seek)
      ensures floppy.Some? ==> currentDrive == r.dev % 4 && (prep == Ready <==> Place(floppy.value, r.sector).Some?)
      ensures prep == Ready ==>
                Place(floppy.value, r.sector) == Some(geometry) &&
                (seek <==> old(seek) || old(currentDrive) != currentDrive || geometry.seekTrack != currentTrack)
      ensures prep == Misfit ==> geometry == old(geometry) && (seek <==> old(seek) || old(currentDrive) != currentDrive)
    {
      floppy := TypeOf(Minor(r.dev));
      if floppy == None {
        return Beyond;
      }
      if currentDrive != r.dev % 4 {
        seek := true;
      }
      currentDrive := r.dev % 4;
      var g := Place(floppy.value, r.sector);
      if g == None {
        return Misfit;
      }
      geometry := g.value;
      if geometry.seekTrack != currentTrack {
        seek := true;
      }
      return Ready;
    }

    /** do_fd_request. A pending reset or recalibration is started first;
        otherwise the requests are scanned. */
    method DoFdRequest() returns (st: Status, step: FdStep)
      requires Valid()
      modifies this`queue, this`ended, this`reset, this`recalibrate, this`seek, this`currentDrive,
               this`currentTrack, this`floppy, this`geometry, this`command, this`curSpec1, this`curRate
      ensures Valid() && Extends(old(ended), ended) && |queue| <= |old(queue)|
      ensures old(reset) ==>
                st == Done && step == ResetFloppy && !reset && recalibrate && curSpec1 == -1 && curRate == -1 && queue == old(queue) && !seek
      ensures !old(reset) && old(recalibrate) ==>
                st == Done && step == RecalibrateFloppy && !recalibrate && currentTrack == 0 && queue == old(queue) && !seek
      ensures !old(reset) && !old(recalibrate) ==>
                !reset && !recalibrate && currentTrack == old(currentTrack) && Scanned(old(currentDrive), old(ended), st, step)
    {
      seek := false;
      if reset {
        reset, curSpec1, curRate, recalibrate := false, -1, -1, true;
        return Done, ResetFloppy;
      }
      if recalibrate {
        recalibrate, currentTrack := false, 0;
        return Done, RecalibrateFloppy;
      }
      st, step := Scan();
    }

    /** What the scan of do_fd_request promises, from drive0, the drive
        last used, and e0, the requests retired before it. */
    ghost predicate Scanned(drive0: int, e0: seq<Ended>, st: Status, step: FdStep)
      reads this
    {
      (st == Done && step.StartTransfer? ==>
         queue != [] && floppy.Some? && floppy == TypeOf(Minor(queue[0].dev)) && TypeOk(floppy.value) &&
         currentDrive == queue[0].dev % 4 &&
         Place(floppy.value, queue[0].sector) == Some(geometry) &&
         (drive0 != currentDrive || geometry.seekTrack != currentTrack ==> seek) &&
         (ended == e0 ==> (seek <==> drive0 != currentDrive || geometry.seekTrack != currentTrack)) &&
         (queue[0].cmd == READ ==> step.command == FD_READ) && (queue[0].cmd == WRITE ==> step.command == FD_WRITE) &&
         command == step.command) &&
      (st == Done && step == Idle ==> queue == []) &&
      (st == Done && step == BeyondTable ==> queue != [] && Minor(queue[0].dev) >= 32) &&
      (st == Panic(LIST_DESTROYED) <==> queue != [] && Major(queue[0].dev) != MAJOR_FD) &&
      (st == Panic(UNKNOWN_COMMAND) ==> queue != [] && queue[0].cmd != READ && queue[0].cmd != WRITE) &&
      (st == Done || st == Panic(LIST_DESTROYED) || st == Panic(UNKNOWN_COMMAND)) &&
      (st == Done ==> step == Idle || step == BeyondTable || step.StartTransfer?)
    }

    /** The scan from INIT_REQUEST on: for the requests in order, the type
        is floppy_type[minor >> 2]; a request that does not fit its type
        fails and the next is tried; the first that fits is set up as a
        read or a write, and the motor timer is started. */
    method Scan() returns (st: Status, step: FdStep)
      requires Valid() && !seek
      modifies this`queue, this`ended, this`seek, this`currentDrive, this`floppy, this`geometry, this`command
      ensures Valid() && Extends(old(ended), ended) && |queue| <= |old(queue)|
      ensures Scanned(old(currentDrive), old(ended), st, step)
    {
      ghost var drive0 := currentDrive;
      while queue != []
        invariant Valid() && Extends(old(ended), ended) && |queue| <= |old(queue)|
        invariant drive0 != currentDrive ==> seek
        invariant ended == old(ended) ==> currentDrive == drive0 && !seek
        decreases |queue|
      {
        var r := queue[0];
        if Major(r.dev) != MAJOR_FD {
          return Panic(LIST_DESTROYED), Idle;
        }
        var prep := Prepare(r);
        if prep == Beyond {
          return Done, BeyondTable;
        }
        if prep == Misfit {
          ghost var e := ended;
          EndRequest(false);
          ExtendsFail(old(ended), e, r);
          continue;
        }
        if r.cmd == READ {
          command := FD_READ;
        } else if r.cmd == WRITE {
          command := FD_WRITE;
        } else {
          return Panic(UNKNOWN_COMMAND), Idle;
        }
        return Done, StartTransfer(command);
      }
      return Done, Idle;
    }
  }
}
