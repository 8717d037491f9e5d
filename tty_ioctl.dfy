/** The terminal ioctls (kernel/chr_drv/tty_ioctl.c): reading and setting a
    terminal's termios (the POSIX structure) or termio (the older one, with
    16-bit flag words and 8 control characters), the serial line's divisor,
    flushing queues, and the process group and queue counts. User memory is
    a byte array, with the user pointer `arg` an index into it; the serial
    port writes change_speed makes are returned as a list. */
module TtyIoctl {
  import opened Util
  import opened Errno
  import opened FsDefs
  import opened Driver
  import opened TtyQueue
  import opened TtyIo

  // The commands of include/termios.h.
  const TCGETS: int := 0x5401
  const TCSETS: int := 0x5402
  const TCSETSW: int := 0x5403
  const TCSETSF: int := 0x5404
  const TCGETA: int := 0x5405
  const TCSETA: int := 0x5406
  const TCSETAW: int := 0x5407
  const TCSETAF: int := 0x5408
  const TCSBRK: int := 0x5409
  const TCXONC: int := 0x540A
  const TCFLSH: int := 0x540B
  const TIOCEXCL: int := 0x540C
  const TIOCGPGRP: int := 0x540F
  const TIOCSPGRP: int := 0x5410
  const TIOCOUTQ: int := 0x5411
  const TIOCINQ: int := 0x541B

  /** sizeof(struct termios): four unsigned longs, c_line, 17 control
      characters and two bytes of padding. */
  const TERMIOS_SIZE: int := 36
  /** sizeof(struct termio): four unsigned shorts, c_line, 8 control
      characters and one byte of padding. */
  const TERMIO_SIZE: int := 18
  /** NCC, the control characters of struct termio. */
  const NCC: int := 8

  /** The divisor of the UART's 115200 Hz clock for each CBAUD value. */
  const QUOTIENT: seq<int> := [0, 2304, 1536, 1047, 857, 768, 576, 384, 192, 96, 64, 48, 24, 12, 6, 3]
  /** The rates the CBAUD values B0 ... B38400 stand for. */
  const BAUD: seq<int> := [0, 50, 75, 110, 134, 150, 200, 300, 600, 1200, 1800, 2400, 4800, 9600, 19200, 38400]

  /** Each divisor gives its rate, the 134.5 rate rounded down. */
  lemma QuotientGivesBaud(k: int)
    requires 1 <= k < 16
    ensures QUOTIENT[k] > 0 && 115200 / QUOTIENT[k] == BAUD[k]
  {
  }

  /** The two little-endian bytes of an unsigned short. */
  function Bytes16(x: int): (r: seq<Byte>)
    ensures |r| == 2
  {
    [x % 256, x / 256 % 256]
  }

  /** The four little-endian bytes of an unsigned long: x is truncated to
      32 bits (two's complement for a negative int). */
  function Bytes32(x: int): (r: seq<Byte>)
    ensures |r| == 4
  {
    var u := x % 0x1_0000_0000;
    Bytes16(u % 0x1_0000) + Bytes16(u / 0x1_0000)
  }

  lemma Le16Bytes16(x: int)
    ensures Le16(Bytes16(x), 0) == x % 0x1_0000
  {
    var y := x % 0x1_0000;
    assert x == 0x1_0000 * (x / 0x1_0000) + y;
    assert x == 256 * (x / 256) + x % 256;
    assert y == 256 * (y / 256) + y % 256;
    assert y % 256 == x % 256;
    assert y / 256 == x / 256 % 256;
  }

  lemma Bytes16Le16(b: seq<Byte>, i: int)
    requires 0 <= i && i + 2 <= |b|
    ensures Bytes16(Le16(b, i)) == b[i..i + 2]
  {
    var v := Le16(b, i);
    assert v % 256 == b[i];
    assert v / 256 == b[i + 1];
  }

  /** Bytes32 sees only the low 32 bits. */
  lemma SameBytes32(a: int, b: int)
    requires a % 0x1_0000_0000 == b % 0x1_0000_0000
    ensures Bytes32(a) == Bytes32(b)
  {
  }

  lemma Le32Bytes32(x: int)
    ensures Le32(Bytes32(x), 0) == x % 0x1_0000_0000
  {
    var u := x % 0x1_0000_0000;
    var b := Bytes32(x);
    Le16Bytes16(u % 0x1_0000);
    Le16Bytes16(u / 0x1_0000);
    assert Le16(b, 0) == Le16(Bytes16(u % 0x1_0000), 0);
    assert Le16(b, 2) == Le16(Bytes16(u / 0x1_0000), 0);
    assert u == 0x1_0000 * (u / 0x1_0000) + u % 0x1_0000;
  }

  lemma Bytes32Le32(b: seq<Byte>, i: int)
    requires 0 <= i && i + 4 <= |b|
    ensures Bytes32(Le32(b, i)) == b[i..i + 4]
  {
    var lo, hi := Le16(b, i), Le16(b, i + 2);
    var v := Le32(b, i);
    assert v % 0x1_0000 == lo;
    assert v / 0x1_0000 == hi;
    Bytes16Le16(b, i);
    Bytes16Le16(b, i + 2);
  }

  /** A long read from user memory stored into an int: the unsigned
      value taken as two's complement. */
  function Signed32(x: int): (r: int)
    requires 0 <= x < 0x1_0000_0000
    ensures -0x8000_0000 <= r < 0x8000_0000 && r % 0x1_0000_0000 == x
  {
    if x < 0x8000_0000 then x else x - 0x1_0000_0000
  }

  /** The control characters as bytes. */
  function CcBytes(t: Termios, n: int): (r: seq<Byte>)
    requires TermiosOk(t) && 0 <= n <= NCCS
    ensures |r| == n && forall i :: 0 <= i < n ==> r[i] == t.cc[i]
  {
    seq(n, i requires 0 <= i < n => t.cc[i] as Byte)
  }

  /** The fields of struct termios as bytes. */
  function TermiosFields(t: Termios): (r: seq<Byte>)
    requires TermiosOk(t)
    ensures |r| == TERMIOS_SIZE - 2
  {
    Bytes32(t.iflag) + Bytes32(t.oflag) + Bytes32(t.cflag) + Bytes32(t.lflag)
      + [t.line % 256] + CcBytes(t, NCCS)
  }

  /** The bytes of struct termios, with the padding written as zeros. */
  function TermiosBytes(t: Termios): (r: seq<Byte>)
    requires TermiosOk(t)
    ensures |r| == TERMIOS_SIZE && r[..TERMIOS_SIZE - 2] == TermiosFields(t)
  {
    TermiosFields(t) + [0, 0]
  }

  /** The struct termios held in 36 bytes of user memory (the padding
      bytes are not kept). */
  function ParseTermios(b: seq<Byte>): (t: Termios)
    requires |b| == TERMIOS_SIZE
    ensures TermiosOk(t)
  {
    Termios(Le32(b, 0), Le32(b, 4), Le32(b, 8), Le32(b, 12), b[16], b[17..34])
  }

  /** A termios whose every field fits into its C type. */
  predicate Storable(t: Termios)
  {
    TermiosOk(t) && t.iflag < 0x1_0000_0000 && t.oflag < 0x1_0000_0000 &&
    t.cflag < 0x1_0000_0000 && t.lflag < 0x1_0000_0000 && 0 <= t.line < 256
  }

  /** The fields of a termios whose pieces are the first 34 bytes of b. */
  lemma FieldsFrom(p: Termios, b: seq<Byte>)
    requires TermiosOk(p) && |b| >= 34
    requires Bytes32(p.iflag) == b[0..4] && Bytes32(p.oflag) == b[4..8]
    requires Bytes32(p.cflag) == b[8..12] && Bytes32(p.lflag) == b[12..16]
    requires p.line % 256 == b[16] && CcBytes(p, NCCS) == b[17..34]
    ensures TermiosFields(p) == b[..34]
  {
    assert b[..34] == b[0..4] + b[4..8] + b[8..12] + b[12..16] + [b[16]] + b[17..34];
  }

  /** get_termios after set_termios gives back every byte but the padding. */
  lemma TermiosBytesParse(b: seq<Byte>)
    requires |b| == TERMIOS_SIZE
    ensures TermiosBytes(ParseTermios(b))[..34] == b[..34]
  {
    var p := ParseTermios(b);
    Bytes32Le32(b, 0);
    Bytes32Le32(b, 4);
    Bytes32Le32(b, 8);
    Bytes32Le32(b, 12);
    assert CcBytes(p, NCCS) == b[17..34];
    FieldsFrom(p, b);
  }

  /** The unsigned long at byte i of a sequence that holds x's bytes there. */
  lemma Le32At(e: seq<Byte>, i: int, x: int)
    requires 0 <= i && i + 4 <= |e| && e[i..i + 4] == Bytes32(x)
    ensures Le32(e, i) == x % 0x1_0000_0000
  {
    Le32Bytes32(x);
    assert Le32(e, i) == Le32(e[i..i + 4], 0);
  }

  /** Where the fields of a termios lie in its bytes. */
  lemma TermiosLayout(t: Termios)
    requires TermiosOk(t)
    ensures var e := TermiosBytes(t);
      e[0..4] == Bytes32(t.iflag) && e[4..8] == Bytes32(t.oflag) && e[8..12] == Bytes32(t.cflag) &&
      e[12..16] == Bytes32(t.lflag) && e[16] == t.line % 256 && e[17..34] == CcBytes(t, NCCS)
  {
    var e := TermiosBytes(t);
    assert e == Bytes32(t.iflag) + Bytes32(t.oflag) + Bytes32(t.cflag) + Bytes32(t.lflag)
      + [t.line % 256] + CcBytes(t, NCCS) + [0, 0];
  }

  lemma ParseFrom(e: seq<Byte>, t: Termios)
    requires |e| == TERMIOS_SIZE && TermiosOk(t)
    requires Le32(e, 0) == t.iflag % 0x1_0000_0000 && Le32(e, 4) == t.oflag % 0x1_0000_0000
    requires Le32(e, 8) == t.cflag % 0x1_0000_0000 && Le32(e, 12) == t.lflag % 0x1_0000_0000
    requires Storable(t) && e[16] == t.line % 256 && e[17..34] == CcBytes(t, NCCS)
    ensures ParseTermios(e) == t
  {
    assert e[17..34] == t.cc;
  }

  /** set_termios after get_termios gives back a storable termios. */
  lemma ParseTermiosBytes(t: Termios)
    requires Storable(t)
    ensures ParseTermios(TermiosBytes(t)) == t
  {
    var e := TermiosBytes(t);
    TermiosLayout(t);
    Le32At(e, 0, t.iflag);
    Le32At(e, 4, t.oflag);
    Le32At(e, 8, t.cflag);
    Le32At(e, 12, t.lflag);
    ParseFrom(e, t);
  }

  /** The fields of struct termio as get_termio copies them: the flags cut
      to their low 16 bits, c_line and the first 8 control characters. */
  function TermioFields(t: Termios): (r: seq<Byte>)
    requires TermiosOk(t)
    ensures |r| == TERMIO_SIZE - 1
  {
    Bytes16(t.iflag) + Bytes16(t.oflag) + Bytes16(t.cflag) + Bytes16(t.lflag)
      + [t.line % 256] + CcBytes(t, NCC)
  }

  /** The bytes of struct termio, with the padding byte written as zero. */
  function TermioBytes(t: Termios): (r: seq<Byte>)
    requires TermiosOk(t)
    ensures |r| == TERMIO_SIZE && r[..TERMIO_SIZE - 1] == TermioFields(t)
  {
    TermioFields(t) + [0]
  }

  /** A flag word whose low 16 bits are replaced by the unsigned short v,
      as the stores through an unsigned short pointer do on the
      little-endian i386. */
  function Low16(flag: nat, v: int): (r: nat)
    requires 0 <= v < 0x1_0000
    ensures r % 0x1_0000 == v && r / 0x1_0000 == flag / 0x1_0000
  {
    flag / 0x1_0000 * 0x1_0000 + v
  }

  /** set_termio: the termio in 17 bytes of user memory overwrites the low
      halves of the flags, c_line and the first 8 control characters. */
  function SetTermio(t: Termios, b: seq<Byte>): (r: Termios)
    requires TermiosOk(t) && |b| == TERMIO_SIZE
    ensures TermiosOk(r)
  {
    Termios(Low16(t.iflag, Le16(b, 0)), Low16(t.oflag, Le16(b, 2)), Low16(t.cflag, Le16(b, 4)),
            Low16(t.lflag, Le16(b, 6)), b[8], b[9..17] + t.cc[NCC..])
  }

  /** set_termio keeps the high halves of the flags and the control
      characters from NCC on. */
  lemma SetTermioKeeps(t: Termios, b: seq<Byte>)
    requires TermiosOk(t) && |b| == TERMIO_SIZE
    ensures var r := SetTermio(t, b);
      r.iflag / 0x1_0000 == t.iflag / 0x1_0000 && r.oflag / 0x1_0000 == t.oflag / 0x1_0000 &&
      r.cflag / 0x1_0000 == t.cflag / 0x1_0000 && r.lflag / 0x1_0000 == t.lflag / 0x1_0000 &&
      r.cc[NCC..] == t.cc[NCC..]
  {
    assert SetTermio(t, b).cc[NCC..] == t.cc[NCC..];
  }

  /** The fields of a termio whose pieces are the first 17 bytes of b. */
  lemma TermioFieldsFrom(p: Termios, b: seq<Byte>)
    requires TermiosOk(p) && |b| >= 17
    requires Bytes16(p.iflag) == b[0..2] && Bytes16(p.oflag) == b[2..4]
    requires Bytes16(p.cflag) == b[4..6] && Bytes16(p.lflag) == b[6..8]
    requires p.line % 256 == b[8] && CcBytes(p, NCC) == b[9..17]
    ensures TermioFields(p) == b[..17]
  {
    assert b[..17] == b[0..2] + b[2..4] + b[4..6] + b[6..8] + [b[8]] + b[9..17];
  }

  /** Replacing a flag's low half with the unsigned short at byte i gives
      a flag whose bytes are those two. */
  lemma Low16Bytes(flag: nat, b: seq<Byte>, i: int)
    requires 0 <= i && i + 2 <= |b|
    ensures Bytes16(Low16(flag, Le16(b, i))) == b[i..i + 2]
  {
    var x := Low16(flag, Le16(b, i));
    Bytes16Le16(b, i);
    assert x % 256 == Le16(b, i) % 256 && x / 256 % 256 == Le16(b, i) / 256 % 256 by {
      assert x == flag / 0x1_0000 * 256 * 256 + Le16(b, i);
    }
  }

  /** get_termio after set_termio gives back every byte but the padding. */
  lemma TermioBytesSet(t: Termios, b: seq<Byte>)
    requires TermiosOk(t) && |b| == TERMIO_SIZE
    ensures TermioBytes(SetTermio(t, b))[..17] == b[..17]
  {
    var r := SetTermio(t, b);
    Low16Bytes(t.iflag, b, 0);
    Low16Bytes(t.oflag, b, 2);
    Low16Bytes(t.cflag, b, 4);
    Low16Bytes(t.lflag, b, 6);
    assert CcBytes(r, NCC) == b[9..17];
    TermioFieldsFrom(r, b);
  }

  /** The unsigned short at byte i of a sequence that holds x's bytes
      there, put back into x's low half, gives x. */
  lemma Le16At(e: seq<Byte>, i: int, x: nat)
    requires 0 <= i && i + 2 <= |e| && e[i..i + 2] == Bytes16(x)
    ensures Low16(x, Le16(e, i)) == x
  {
    Le16Bytes16(x);
    assert Le16(e, i) == Le16(e[i..i + 2], 0);
    assert x == x / 0x1_0000 * 0x1_0000 + x % 0x1_0000;
  }

  /** Where the fields of a termio lie in its bytes. */
  lemma TermioLayout(t: Termios)
    requires TermiosOk(t)
    ensures var e := TermioBytes(t);
      e[0..2] == Bytes16(t.iflag) && e[2..4] == Bytes16(t.oflag) && e[4..6] == Bytes16(t.cflag) &&
      e[6..8] == Bytes16(t.lflag) && e[8] == t.line % 256 && e[9..17] == CcBytes(t, NCC)
  {
    var e := TermioBytes(t);
    assert e == Bytes16(t.iflag) + Bytes16(t.oflag) + Bytes16(t.cflag) + Bytes16(t.lflag)
      + [t.line % 256] + CcBytes(t, NCC) + [0];
  }

  /** set_termio after get_termio changes nothing when c_line fits a byte. */
  lemma SetTermioBytes(t: Termios)
    requires TermiosOk(t) && 0 <= t.line < 256
    ensures SetTermio(t, TermioBytes(t)) == t
  {
    var e := TermioBytes(t);
    TermioLayout(t);
    Le16At(e, 0, t.iflag);
    Le16At(e, 2, t.oflag);
    Le16At(e, 4, t.cflag);
    Le16At(e, 6, t.lflag);
    assert e[9..17] == t.cc[..NCC];
    assert SetTermio(t, e).cc == t.cc[..NCC] + t.cc[NCC..] == t.cc;
  }

  /** An outb to a port. */
  datatype PortWrite = Out(port: int, value: int)

  /** change_speed: nothing for a terminal whose read queue names no port
      (the unsigned short port is 0); otherwise the divisor of the CBAUD
      bits is latched into the UART: DLAB set, low byte, high byte, DLAB
      cleared with 8 data bits. */
  function Speed(t: Termios, data: int): (w: seq<PortWrite>)
  {
    var port := data % 0x1_0000;
    if port == 0 then []
    else
      var quot := QUOTIENT[t.cflag % 16];
      [Out(port + 3, 0x80), Out(port, quot % 256), Out(port + 1, quot / 256), Out(port + 3, 0x03)]
  }

  /** The divisor written is the one of the CBAUD bits, and it gives the
      rate those bits name. */
  lemma SpeedMeans(t: Termios, data: int)
    ensures data % 0x1_0000 == 0 <==> Speed(t, data) == []
    ensures var w := Speed(t, data); var k := t.cflag % 16;
      w != [] ==> (|w| == 4 && w[1].value + 256 * w[2].value == QUOTIENT[k] &&
        (k != 0 ==> 115200 / (w[1].value + 256 * w[2].value) == BAUD[k]))
  {
    if t.cflag % 16 != 0 {
      QuotientGivesBaud(t.cflag % 16);
    }
  }

  /** What an ioctl sees of a terminal: the termios, the process group, the
      contents of the three queues and the read queue's port. */
  datatype Tty = Tty(termios: Termios, pgrp: int, read: seq<SChar>, write: seq<SChar>, secondary: seq<SChar>, port: int)

  /** What tty_ioctl leaves: the terminal, the user memory, the return
      value and the port writes. */
  datatype Outcome = Outcome(tty: Tty, mem: seq<Byte>, ret: int, ports: seq<PortWrite>)

  /** The bytes of user memory a command reads or writes at arg. */
  function Area(cmd: int): (n: int)
    ensures n >= 0
  {
    if cmd in {TCGETS, TCSETS, TCSETSW, TCSETSF} then TERMIOS_SIZE
    else if cmd in {TCGETA, TCSETA, TCSETAW, TCSETAF} then TERMIO_SIZE
    else if cmd in {TIOCGPGRP, TIOCSPGRP, TIOCOUTQ, TIOCINQ} then 4
    else 0
  }

  /** The user area of a command lies inside user memory. */
  predicate UserOk(cmd: int, arg: int, size: int)
  {
    Area(cmd) > 0 ==> 0 <= arg && arg + Area(cmd) <= size
  }

  /** TCFLSH: 0 flushes the read queue, 1 the write queue, 2 both; any
      other argument is refused. */
  function FlushSpec(s: Tty, mem: seq<Byte>, arg: int): Outcome
  {
    if arg == 0 then Outcome(s.(read := []), mem, 0, [])
    else if arg == 1 then Outcome(s.(write := []), mem, 0, [])
    else if arg == 2 then Outcome(s.(read := [], write := []), mem, 0, [])
    else Outcome(s, mem, -EINVAL, [])
  }

  /** A command that stores a long into user memory. */
  function GetLong(s: Tty, mem: seq<Byte>, arg: int, x: int): Outcome
    requires 0 <= arg && arg + 4 <= |mem|
  {
    Outcome(s, Overwrite(mem, arg, Bytes32(x)), 0, [])
  }

  /** tty_ioctl on the terminal s. TCSETSF and TCSETAF flush the read queue
      and fall through to TCSETSW and TCSETAW, whose wait for the output to
      drain does nothing, and on to TCSETS and TCSETA. TCSBRK sends no
      break. */
  function IoctlSpec(s: Tty, cmd: int, arg: int, mem: seq<Byte>): Outcome
    requires TermiosOk(s.termios) && UserOk(cmd, arg, |mem|)
  {
    if cmd == TCGETS then Outcome(s, Overwrite(mem, arg, TermiosBytes(s.termios)), 0, [])
    else if cmd in {TCSETSF, TCSETSW, TCSETS} then
      var t := ParseTermios(mem[arg..arg + TERMIOS_SIZE]);
      var s1 := if cmd == TCSETSF then s.(read := []) else s;
      Outcome(s1.(termios := t), mem, 0, Speed(t, s.port))
    else if cmd == TCGETA then Outcome(s, Overwrite(mem, arg, TermioBytes(s.termios)), 0, [])
    else if cmd in {TCSETAF, TCSETAW, TCSETA} then
      var t := SetTermio(s.termios, mem[arg..arg + TERMIO_SIZE]);
      var s1 := if cmd == TCSETAF then s.(read := []) else s;
      Outcome(s1.(termios := t), mem, 0, Speed(t, s.port))
    else if cmd == TCSBRK then Outcome(s, mem, 0, [])
    else if cmd == TCFLSH then FlushSpec(s, mem, arg)
    else if cmd == TIOCGPGRP then GetLong(s, mem, arg, s.pgrp)
    else if cmd == TIOCSPGRP then Outcome(s.(pgrp := Signed32(Le32(mem, arg))), mem, 0, [])
    else if cmd == TIOCOUTQ then GetLong(s, mem, arg, |s.write|)
    else if cmd == TIOCINQ then GetLong(s, mem, arg, |s.secondary|)
    else Outcome(s, mem, -EINVAL, [])
  }

  /** The commands tty_ioctl carries out; TCXONC, TIOCEXCL, TIOCNXCL,
      TIOCSCTTY, TIOCSTI, the window-size, modem and soft-carrier commands
      and every unknown command are refused. */
  predicate Implemented(cmd: int)
  {
    (TCGETS <= cmd <= TCSBRK) || cmd == TCFLSH || (TIOCGPGRP <= cmd <= TIOCOUTQ) || cmd == TIOCINQ
  }

  /** A refused command returns -EINVAL and changes nothing. */
  lemma RefusedChangesNothing(s: Tty, cmd: int, arg: int, mem: seq<Byte>)
    requires TermiosOk(s.termios) && UserOk(cmd, arg, |mem|)
    ensures !Implemented(cmd) ==> IoctlSpec(s, cmd, arg, mem) == Outcome(s, mem, -EINVAL, [])
    ensures Implemented(cmd) && cmd != TCFLSH ==> IoctlSpec(s, cmd, arg, mem).ret == 0
  {
  }

  /** TCFLSH empties exactly the queues its argument names and fails, with
      nothing flushed, on any other argument. */
  lemma FlushMeans(s: Tty, arg: int, mem: seq<Byte>)
    requires TermiosOk(s.termios)
    ensures var o := IoctlSpec(s, TCFLSH, arg, mem);
      o.mem == mem && o.ports == [] &&
      (o.ret == 0 <==> 0 <= arg <= 2) && (o.ret != 0 ==> o.ret == -EINVAL && o.tty == s) &&
      o.tty.read == (if arg == 0 || arg == 2 then [] else s.read) &&
      o.tty.write == (if arg == 1 || arg == 2 then [] else s.write) &&
      o.tty.(read := s.read, write := s.write) == s
  {
  }

  /** The reading commands change no terminal state and no port, and the
      setting commands change no user memory; only the flushing forms touch
      a queue. */
  lemma GetsAndSets(s: Tty, cmd: int, arg: int, mem: seq<Byte>)
    requires TermiosOk(s.termios) && UserOk(cmd, arg, |mem|)
    ensures cmd in {TCGETS, TCGETA, TIOCGPGRP, TIOCOUTQ, TIOCINQ} ==>
      IoctlSpec(s, cmd, arg, mem).tty == s && IoctlSpec(s, cmd, arg, mem).ports == []
    ensures cmd in {TCSETS, TCSETSW, TCSETSF, TCSETA, TCSETAW, TCSETAF, TIOCSPGRP} ==>
      IoctlSpec(s, cmd, arg, mem).mem == mem
    ensures cmd in {TCSETS, TCSETSW, TCSETA, TCSETAW} ==>
      IoctlSpec(s, cmd, arg, mem).tty.(termios := s.termios) == s
    ensures cmd in {TCSETSF, TCSETAF} ==>
      IoctlSpec(s, cmd, arg, mem).tty.(termios := s.termios, read := s.read) == s &&
      IoctlSpec(s, cmd, arg, mem).tty.read == []
  {
  }

  /** User memory in which the n bytes at arg are put back where they
      were, but for the padding after the first k. */
  lemma PutBack(mem: seq<Byte>, arg: int, bytes: seq<Byte>, k: int)
    requires 0 <= arg && arg + |bytes| <= |mem| && 0 <= k <= |bytes|
    requires bytes[..k] == mem[arg..arg + |bytes|][..k]
    ensures Overwrite(mem, arg, bytes)[..arg + k] == mem[..arg + k]
    ensures Overwrite(mem, arg, bytes)[arg + |bytes|..] == mem[arg + |bytes|..]
  {
    var r := Overwrite(mem, arg, bytes);
    forall j | 0 <= j < arg + k
      ensures r[j] == mem[j]
    {
      if j >= arg {
        assert r[j] == bytes[j - arg] == bytes[..k][j - arg];
      }
    }
  }

  /** TCGETS after TCSETS puts back, at the same place, every byte that was
      set but the padding. */
  lemma SetThenGetTermios(s: Tty, arg: int, mem: seq<Byte>)
    requires TermiosOk(s.termios) && 0 <= arg && arg + TERMIOS_SIZE <= |mem|
    ensures var o1 := IoctlSpec(s, TCSETS, arg, mem);
      var o2 := IoctlSpec(o1.tty, TCGETS, arg, o1.mem);
      o2.mem[..arg + 34] == mem[..arg + 34] && o2.mem[arg + TERMIOS_SIZE..] == mem[arg + TERMIOS_SIZE..]
  {
    var b := mem[arg..arg + TERMIOS_SIZE];
    TermiosBytesParse(b);
    PutBack(mem, arg, TermiosBytes(ParseTermios(b)), 34);
  }

  /** TCGETA after TCSETA puts back, at the same place, every byte that was
      set but the padding. */
  lemma SetThenGetTermio(s: Tty, arg: int, mem: seq<Byte>)
    requires TermiosOk(s.termios) && 0 <= arg && arg + TERMIO_SIZE <= |mem|
    ensures var o1 := IoctlSpec(s, TCSETA, arg, mem);
      var o2 := IoctlSpec(o1.tty, TCGETA, arg, o1.mem);
      o2.mem[..arg + 17] == mem[..arg + 17] && o2.mem[arg + TERMIO_SIZE..] == mem[arg + TERMIO_SIZE..]
  {
    var b := mem[arg..arg + TERMIO_SIZE];
    TermioBytesSet(s.termios, b);
    PutBack(mem, arg, TermioBytes(SetTermio(s.termios, b)), 17);
  }

  /** TIOCGPGRP after TIOCSPGRP leaves user memory as it was. */
  lemma SetThenGetPgrp(s: Tty, arg: int, mem: seq<Byte>)
    requires TermiosOk(s.termios) && 0 <= arg && arg + 4 <= |mem|
    ensures var o1 := IoctlSpec(s, TIOCSPGRP, arg, mem);
      IoctlSpec(o1.tty, TIOCGPGRP, arg, o1.mem).mem == mem
  {
    var x := Le32(mem, arg);
    Bytes32Le32(mem, arg);
    SameBytes32(Signed32(x), x);
    PutBack(mem, arg, Bytes32(x), 4);
    assert Overwrite(mem, arg, Bytes32(x)) == mem;
  }

  /** The terminal of a device number: for major 5 (/dev/tty) the
      calling task's terminal, which must not be negative; otherwise the
      minor number. */
  function TtyOf(dev: int, currentTty: int): (r: Result<int>)
    ensures r.Fail? <==> Major(dev) == 5 && currentTty < 0
    ensures r.Ok? && Major(dev) != 5 ==> 0 <= r.value < 256 && r.value == dev % 256
  {
    if Major(dev) == 5 then
      if currentTty < 0 then Fail("tty_ioctl: dev<0") else Ok(currentTty)
    else Ok(Minor(dev))
  }

  /** The state an ioctl sees. */
  ghost function State(tty: Terminal): Tty
    requires tty.Valid()
    reads tty, tty.readQ, tty.writeQ, tty.secondary, tty.readQ.buf, tty.writeQ.buf, tty.secondary.buf
  {
    Tty(tty.termios, tty.pgrp, tty.readQ.Contents(), tty.writeQ.Contents(), tty.secondary.Contents(), tty.readQ.data)
  }

  /** The put_fs_byte loop: bytes copied to user memory at arg. */
  method CopyOut(mem: array<Byte>, arg: int, bytes: seq<Byte>)
    requires 0 <= arg && arg + |bytes| <= mem.Length
    modifies mem
    ensures mem[..] == Overwrite(old(mem[..]), arg, bytes)
  {
    for i := 0 to |bytes|
      invariant mem[..] == Overwrite(old(mem[..]), arg, bytes[..i])
    {
      mem[arg + i] := bytes[i];
      assert bytes[..i + 1] == bytes[..i] + [bytes[i]];
    }
    assert bytes[..|bytes|] == bytes;
  }

  /** The get_fs_byte loop: n bytes of user memory from arg. */
  method CopyIn(mem: array<Byte>, arg: int, n: int) returns (b: seq<Byte>)
    requires 0 <= arg && 0 <= n && arg + n <= mem.Length
    ensures b == mem[arg..arg + n]
  {
    b := [];
    for i := 0 to n
      invariant b == mem[arg..arg + i]
    {
      b := b + [mem[arg + i]];
    }
  }

  /** change_speed */
  method ChangeSpeed(tty: Terminal) returns (w: seq<PortWrite>)
    ensures w == Speed(tty.termios, tty.readQ.data)
  {
    var port := tty.readQ.data % 0x1_0000;
    if port == 0 {
      return [];
    }
    var quot := QUOTIENT[tty.termios.cflag % 16];
    w := [Out(port + 3, 0x80), Out(port, quot % 256), Out(port + 1, quot / 256), Out(port + 3, 0x03)];
  }

  /** get_termios */
  method GetTermios(tty: Terminal, mem: array<Byte>, arg: int) returns (r: int)
    requires TermiosOk(tty.termios) && 0 <= arg && arg + TERMIOS_SIZE <= mem.Length
    modifies mem
    ensures r == 0 && mem[..] == Overwrite(old(mem[..]), arg, TermiosBytes(tty.termios))
  {
    CopyOut(mem, arg, TermiosBytes(tty.termios));
    return 0;
  }

  /** set_termios, after the read queue has been flushed if asked. */
  method SetTermios(tty: Terminal, mem: array<Byte>, arg: int) returns (w: seq<PortWrite>)
    requires tty.Valid() && 0 <= arg && arg + TERMIOS_SIZE <= mem.Length
    modifies tty`termios
    ensures tty.Valid() && tty.termios == ParseTermios(mem[arg..arg + TERMIOS_SIZE])
    ensures w == Speed(tty.termios, tty.readQ.data)
  {
    var b := CopyIn(mem, arg, TERMIOS_SIZE);
    tty.termios := ParseTermios(b);
    w := ChangeSpeed(tty);
  }

  /** get_termio */
  method GetTermio(tty: Terminal, mem: array<Byte>, arg: int) returns (r: int)
    requires TermiosOk(tty.termios) && 0 <= arg && arg + TERMIO_SIZE <= mem.Length
    modifies mem
    ensures r == 0 && mem[..] == Overwrite(old(mem[..]), arg, TermioBytes(tty.termios))
  {
    CopyOut(mem, arg, TermioBytes(tty.termios));
    return 0;
  }

  /** set_termio */
  method SetTermioOn(tty: Terminal, mem: array<Byte>, arg: int) returns (w: seq<PortWrite>)
    requires tty.Valid() && 0 <= arg && arg + TERMIO_SIZE <= mem.Length
    modifies tty`termios
    ensures tty.Valid() && tty.termios == SetTermio(old(tty.termios), mem[arg..arg + TERMIO_SIZE])
    ensures w == Speed(tty.termios, tty.readQ.data)
  {
    var b := CopyIn(mem, arg, TERMIO_SIZE);
    tty.termios := SetTermio(tty.termios, b);
    w := ChangeSpeed(tty);
  }

  /** The TCFLSH case. */
  method FlushCmd(tty: Terminal, arg: int) returns (r: int)
    requires tty.Valid()
    modifies tty.readQ`head, tty.writeQ`head
    ensures tty.Valid()
    ensures var o := FlushSpec(old(State(tty)), [], arg); State(tty) == o.tty && r == o.ret
  {
    if arg == 0 {
      tty.readQ.Flush();
    } else if arg == 1 {
      tty.writeQ.Flush();
    } else if arg == 2 {
      tty.readQ.Flush();
      tty.writeQ.Flush();
    } else {
      return -EINVAL;
    }
    return 0;
  }

  /** The TCSETS/TCSETSW/TCSETSF and TCSETA/TCSETAW/TCSETAF cases. */
  method SetCmd(tty: Terminal, cmd: int, arg: int, mem: array<Byte>) returns (w: seq<PortWrite>)
    requires tty.Valid() && cmd in {TCSETSF, TCSETSW, TCSETS, TCSETAF, TCSETAW, TCSETA}
    requires UserOk(cmd, arg, mem.Length)
    modifies tty`termios, tty.readQ`head
    ensures tty.Valid()
    ensures var o := IoctlSpec(old(State(tty)), cmd, arg, mem[..]);
      State(tty) == o.tty && w == o.ports && o.mem == mem[..] && o.ret == 0
  {
    if cmd == TCSETSF || cmd == TCSETAF {
      tty.readQ.Flush();
    }
    if cmd in {TCSETSF, TCSETSW, TCSETS} {
      w := SetTermios(tty, mem, arg);
    } else {
      w := SetTermioOn(tty, mem, arg);
    }
  }

  /** tty_ioctl on tty_table[dev]'s terminal tty (TtyOf chooses dev). */
  method Ioctl(tty: Terminal, cmd: int, arg: int, mem: array<Byte>) returns (r: int, w: seq<PortWrite>)
    requires tty.Valid() && UserOk(cmd, arg, mem.Length)
    modifies tty`termios, tty`pgrp, tty.readQ`head, tty.writeQ`head, mem
    ensures tty.Valid()
    ensures var o := IoctlSpec(old(State(tty)), cmd, arg, old(mem[..]));
      State(tty) == o.tty && mem[..] == o.mem && r == o.ret && w == o.ports
  {
    w := [];
    if cmd == TCGETS {
      r := GetTermios(tty, mem, arg);
    } else if cmd in {TCSETSF, TCSETSW, TCSETS, TCSETAF, TCSETAW, TCSETA} {
      w := SetCmd(tty, cmd, arg, mem);
      r := 0;
    } else if cmd == TCGETA {
      r := GetTermio(tty, mem, arg);
    } else if cmd == TCSBRK {
      r := 0;
    } else if cmd == TCFLSH {
      r := FlushCmd(tty, arg);
    } else if cmd == TIOCGPGRP {
      CopyOut(mem, arg, Bytes32(tty.pgrp));
      r := 0;
    } else if cmd == TIOCSPGRP {
      var b := CopyIn(mem, arg, 4);
      tty.pgrp := Signed32(Le32(b, 0));
      r := 0;
    } else if cmd == TIOCOUTQ {
      Room(tty.writeQ);
      CopyOut(mem, arg, Bytes32(tty.writeQ.Chars()));
      r := 0;
    } else if cmd == TIOCINQ {
      CopyOut(mem, arg, Bytes32(tty.secondary.Chars()));
      r := 0;
    } else {
      r := -EINVAL;
    }
  }
}
