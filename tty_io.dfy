/** The terminal line discipline (kernel/chr_drv/tty_io.c): copy_to_cooked
    moves characters from a terminal's raw read queue to its secondary
    (cooked) queue, applying the input mappings, the canonical-mode editing
    characters, flow control and the signal characters, and echoing to the
    write queue; tty_read takes characters from the secondary queue and
    tty_write puts characters on the write queue with the output mappings.
    tty_intr raises a signal on every task of the terminal's process group. */
module TtyIo {
  import opened Util
  import opened Bits
  import opened Errno
  import opened TtyQueue

  /** struct termios; the flag words are unsigned longs, c_cc holds NCCS
      unsigned chars. */
  datatype Termios = Termios(iflag: nat, oflag: nat, cflag: nat, lflag: nat, line: int, cc: seq<int>)

  const NCCS: int := 17
  // Indices into c_cc.
  const VINTR: int := 0
  const VQUIT: int := 1
  const VERASE: int := 2
  const VKILL: int := 3
  const VEOF: int := 4
  const VTIME: int := 5
  const VMIN: int := 6
  const VSTART: int := 8
  const VSTOP: int := 9

  // The bit of each flag of include/termios.h (INLCR is 0000100, bit 6, ...).
  const INLCR: nat := 6
  const IGNCR: nat := 7
  const ICRNL: nat := 8
  const IUCLC: nat := 9
  const OPOST: nat := 0
  const OLCUC: nat := 1
  const ONLCR: nat := 2
  const OCRNL: nat := 3
  const ONLRET: nat := 5
  const ISIG: nat := 0
  const ICANON: nat := 1
  const ECHO: nat := 3
  const ECHOCTL: nat := 9

  // 1 << (SIGINT - 1), 1 << (SIGQUIT - 1), 1 << (SIGALRM - 1).
  const INTMASK: nat := 2
  const QUITMASK: nat := 4
  const ALRMMASK: nat := 0x2000

  const NL: SChar := 10
  const CR: SChar := 13
  const DEL: SChar := 127

  predicate TermiosOk(t: Termios)
  {
    |t.cc| == NCCS && forall i :: 0 <= i < NCCS ==> 0 <= t.cc[i] < 256
  }

  /** A character compared with a control character: the signed char is
      promoted to int, as is the unsigned char of c_cc, so a character
      above 127 never matches. */
  predicate Is(t: Termios, c: SChar, v: int)
    requires TermiosOk(t) && 0 <= v < NCCS
  {
    c == t.cc[v]
  }

  /** tolower and toupper of include/ctype.h, with only A-Z upper case and
      a-z lower case in the _ctype table. */
  function ToLower(c: SChar): SChar
  {
    if 'A' as int <= c <= 'Z' as int then c + 32 else c
  }

  function ToUpper(c: SChar): SChar
  {
    if 'a' as int <= c <= 'z' as int then c - 32 else c
  }

  /** A slot of the task table as tty_intr sees it. */
  datatype Task = Task(pgrp: int, signal: nat)

  /** The task table after tty_intr(tty, mask) with tty->pgrp = pgrp. */
  function Intr(tasks: seq<Option<Task>>, pgrp: int, mask: nat): (r: seq<Option<Task>>)
    ensures |r| == |tasks|
  {
    seq(|tasks|, i requires 0 <= i < |tasks| =>
      if pgrp > 0 && tasks[i].Some? && tasks[i].value.pgrp == pgrp
      then Some(Task(pgrp, Or(tasks[i].value.signal, mask)))
      else tasks[i])
  }

  /** tty_intr sets the bits of mask in the signal word of exactly the tasks
      of the group, and of none when the group is not positive; no other
      bit and no other task changes. */
  lemma IntrMeans(tasks: seq<Option<Task>>, pgrp: int, mask: nat, i: int, k: nat)
    requires 0 <= i < |tasks| && tasks[i].Some?
    ensures Intr(tasks, pgrp, mask)[i].Some? && Intr(tasks, pgrp, mask)[i].value.pgrp == tasks[i].value.pgrp
    ensures Bit(Intr(tasks, pgrp, mask)[i].value.signal, k) <==>
              Bit(tasks[i].value.signal, k) || (pgrp > 0 && tasks[i].value.pgrp == pgrp && Bit(mask, k))
  {
    OrBit(tasks[i].value.signal, mask, k);
  }

  /** What copy_to_cooked works on: the secondary queue, the write queue,
      the stopped flag, the line count secondary.data and the task table. */
  datatype Cook = Cook(sec: seq<SChar>, wq: seq<SChar>, stopped: bool, lines: int, tasks: seq<Option<Task>>)

  /** The input mapping: CR becomes NL under ICRNL and is dropped under
      IGNCR, NL becomes CR under INLCR, and IUCLC lowers the case. */
  function MapIn(t: Termios, c: SChar): Option<SChar>
  {
    var d := if c == CR then (if Bit(t.iflag, ICRNL) then Some(NL) else if Bit(t.iflag, IGNCR) then None else Some(c))
             else if c == NL && Bit(t.iflag, INLCR) then Some(CR) else Some(c);
    if d.Some? && Bit(t.iflag, IUCLC) then Some(ToLower(d.value)) else d
  }

  /** Whether ERASE and KILL stop: the cooked queue is empty or ends a line. */
  predicate LineStart(t: Termios, sec: seq<SChar>)
    requires TermiosOk(t)
  {
    sec == [] || sec[|sec| - 1] == NL || Is(t, sec[|sec| - 1], VEOF)
  }

  /** The echo of an erased character c: one DEL, two for a control
      character. */
  function EchoErase(t: Termios, wq: seq<SChar>, c: SChar): seq<SChar>
  {
    if !Bit(t.lflag, ECHO) then wq
    else if c < 32 then Put(Put(wq, DEL), DEL)
    else Put(wq, DEL)
  }

  /** The newest cooked character erased, with its echo. */
  function EraseOne(t: Termios, s: Cook): (r: Cook)
    requires s.sec != []
    ensures |r.sec| == |s.sec| - 1
  {
    s.(sec := s.sec[..|s.sec| - 1], wq := EchoErase(t, s.wq, s.sec[|s.sec| - 1]))
  }

  /** KILL: characters are erased back to the start of the line. */
  function Kill(t: Termios, s: Cook): (r: Cook)
    requires TermiosOk(t)
    decreases |s.sec|
  {
    if LineStart(t, s.sec) then s else Kill(t, EraseOne(t, s))
  }

  /** ERASE: one character is erased unless the line is empty. */
  function Erase(t: Termios, s: Cook): Cook
    requires TermiosOk(t)
  {
    if LineStart(t, s.sec) then s else EraseOne(t, s)
  }

  /** The echo of a stored character: NL as NL CR, a control character as
      ^ and the character plus 64 under ECHOCTL (else nothing), any other
      character as itself. */
  function EchoChar(t: Termios, wq: seq<SChar>, c: SChar): seq<SChar>
  {
    if !Bit(t.lflag, ECHO) then wq
    else if c == NL then Put(Put(wq, NL), CR)
    else if c < 32 then (if Bit(t.lflag, ECHOCTL) then Put(Put(wq, '^' as int), c + 64) else wq)
    else Put(wq, c)
  }

  /** A character stored in the cooked queue, counting a line for NL and
      EOF. */
  function Store(t: Termios, s: Cook, c: SChar): Cook
    requires TermiosOk(t)
  {
    s.(sec := Put(s.sec, c), wq := EchoChar(t, s.wq, c),
       lines := if c == NL || Is(t, c, VEOF) then s.lines + 1 else s.lines)
  }

  /** One raw character handled by copy_to_cooked, after its mapping. */
  function Handle(t: Termios, pgrp: int, s: Cook, c: SChar): Cook
    requires TermiosOk(t)
  {
    var canon, isig := Bit(t.lflag, ICANON), Bit(t.lflag, ISIG);
    if canon && Is(t, c, VKILL) then Kill(t, s)
    else if canon && Is(t, c, VERASE) then Erase(t, s)
    else if canon && Is(t, c, VSTOP) then s.(stopped := true)
    else if canon && Is(t, c, VSTART) then s.(stopped := false)
    else if isig && Is(t, c, VINTR) then s.(tasks := Intr(s.tasks, pgrp, INTMASK))
    else if isig && Is(t, c, VQUIT) then s.(tasks := Intr(s.tasks, pgrp, QUITMASK))
    else Store(t, s, c)
  }

  function Step(t: Termios, pgrp: int, s: Cook, c: SChar): Cook
    requires TermiosOk(t)
  {
    match MapIn(t, c)
    case None => s
    case Some(d) => Handle(t, pgrp, s, d)
  }

  /** copy_to_cooked on the raw characters input: they are handled in order
      until none is left or the cooked queue is full. */
  function Run(t: Termios, pgrp: int, s: Cook, input: seq<SChar>): Cook
    requires TermiosOk(t)
    decreases |input|
  {
    if input == [] || |s.sec| == CAPACITY then s else Run(t, pgrp, Step(t, pgrp, s, input[0]), input[1..])
  }

  /** The raw characters copy_to_cooked leaves in the read queue. */
  function Unread(t: Termios, pgrp: int, s: Cook, input: seq<SChar>): (r: seq<SChar>)
    requires TermiosOk(t)
    decreases |input|
  {
    if input == [] || |s.sec| == CAPACITY then input else Unread(t, pgrp, Step(t, pgrp, s, input[0]), input[1..])
  }

  /** Where copy_to_cooked stops, and one turn of its loop. */
  lemma RunStops(t: Termios, pgrp: int, s: Cook, input: seq<SChar>)
    requires TermiosOk(t) && (input == [] || |s.sec| == CAPACITY)
    ensures Run(t, pgrp, s, input) == s && Unread(t, pgrp, s, input) == input
  {
  }

  lemma RunTurn(t: Termios, pgrp: int, s: Cook, c: SChar, input: seq<SChar>)
    requires TermiosOk(t) && |s.sec| != CAPACITY
    ensures Run(t, pgrp, s, [c] + input) == Run(t, pgrp, Step(t, pgrp, s, c), input)
    ensures Unread(t, pgrp, s, [c] + input) == Unread(t, pgrp, Step(t, pgrp, s, c), input)
  {
    assert ([c] + input)[1..] == input;
  }

  /** Raw mode with no input mapping: the characters go to the cooked queue
      unchanged, as far as it has room, and nothing is echoed. */
  lemma {:induction false} RawCopy(t: Termios, pgrp: int, s: Cook, input: seq<SChar>)
    requires TermiosOk(t) && t.iflag == 0 && t.lflag == 0 && |s.sec| <= CAPACITY
    ensures var n := |input| - |Unread(t, pgrp, s, input)|;
            0 <= n && Run(t, pgrp, s, input).sec == s.sec + input[..n] &&
            Run(t, pgrp, s, input).wq == s.wq &&
            (|Unread(t, pgrp, s, input)| > 0 ==> |Run(t, pgrp, s, input).sec| == CAPACITY)
    decreases |input|
  {
    BitOfZero(ICRNL);
    BitOfZero(IGNCR);
    BitOfZero(INLCR);
    BitOfZero(IUCLC);
    BitOfZero(ICANON);
    BitOfZero(ISIG);
    BitOfZero(ECHO);
    if input != [] && |s.sec| < CAPACITY {
      var s' := Step(t, pgrp, s, input[0]);
      assert s'.sec == s.sec + [input[0]];
      RawCopy(t, pgrp, s', input[1..]);
      var n' := |input[1..]| - |Unread(t, pgrp, s', input[1..])|;
      assert s.sec + [input[0]] + input[1..][..n'] == s.sec + input[..n' + 1];
    }
  }

  /** In canonical mode ERASE takes back the ordinary character just typed,
      and its echo stays on the write queue. */
  lemma EraseUndoes(t: Termios, pgrp: int, s: Cook, c: SChar)
    requires TermiosOk(t) && Bit(t.lflag, ICANON) && |s.sec| < CAPACITY
    requires t.cc[VERASE] != 13 && t.cc[VERASE] != 10 && !Bit(t.iflag, IUCLC)
    requires MapIn(t, c) == Some(c) && c != NL
    requires !Is(t, c, VKILL) && !Is(t, c, VERASE) && !Is(t, c, VSTOP) && !Is(t, c, VSTART) && !Is(t, c, VEOF)
    requires !(Bit(t.lflag, ISIG) && (Is(t, c, VINTR) || Is(t, c, VQUIT)))
    requires t.cc[VERASE] < 128 && t.cc[VERASE] != t.cc[VKILL]
    ensures Step(t, pgrp, Step(t, pgrp, s, c), t.cc[VERASE]).sec == s.sec
  {
    var e: SChar := t.cc[VERASE];
    var s1 := Step(t, pgrp, s, c);
    assert s1.sec == s.sec + [c];
    assert MapIn(t, e) == Some(e);
  }

  /** What the do-while of tty_read takes from the cooked queue. */
  datatype Drained = Drained(out: seq<SChar>, eof: bool)

  /** The characters of q copied to the user: up to nr of them, stopping
      in canonical mode at an EOF character, which is taken but not
      copied. */
  function Drain(t: Termios, q: seq<SChar>, nr: int): Drained
    requires TermiosOk(t)
    decreases |q|
  {
    if q == [] || nr <= 0 then Drained([], false)
    else if Bit(t.lflag, ICANON) && Is(t, q[0], VEOF) then Drained([], true)
    else var d := Drain(t, q[1..], nr - 1); Drained([q[0]] + d.out, d.eof)
  }

  /** The number of characters a drain takes off the queue. */
  function Taken(d: Drained): nat
  {
    |d.out| + if d.eof then 1 else 0
  }

  /** The copied characters are the oldest ones, no more than nr and all of
      q or nr of them unless an EOF stopped the copy; the EOF is then the
      next character, and in canonical mode none of the copied ones is an
      EOF. */
  lemma {:induction false} DrainMeans(t: Termios, q: seq<SChar>, nr: int)
    requires TermiosOk(t)
    ensures var d := Drain(t, q, nr);
      Taken(d) <= |q| && d.out == q[..|d.out|] && (nr > 0 ==> |d.out| <= nr) &&
      (d.eof ==> Bit(t.lflag, ICANON) && Is(t, q[|d.out|], VEOF)) &&
      (!d.eof ==> |d.out| == if nr <= 0 then 0 else if |q| < nr then |q| else nr) &&
      (Bit(t.lflag, ICANON) ==> forall i :: 0 <= i < |d.out| ==> !Is(t, d.out[i], VEOF))
    decreases |q|
  {
    if q != [] && nr > 0 && !(Bit(t.lflag, ICANON) && Is(t, q[0], VEOF)) {
      DrainMeans(t, q[1..], nr - 1);
      var d := Drain(t, q[1..], nr - 1);
      assert [q[0]] + q[1..][..|d.out|] == q[..|d.out| + 1];
      if Bit(t.lflag, ICANON) {
        forall i | 0 <= i < |d.out| + 1
          ensures !Is(t, ([q[0]] + d.out)[i], VEOF)
        {
          if i > 0 {
            assert ([q[0]] + d.out)[i] == d.out[i - 1];
          }
        }
      }
    }
  }

  /** The line ends in s, which secondary.data counts: NL and EOF. */
  function LineEnds(t: Termios, s: seq<SChar>): nat
    requires TermiosOk(t)
  {
    if s == [] then 0
    else LineEnds(t, s[..|s| - 1]) + if s[|s| - 1] == NL || Is(t, s[|s| - 1], VEOF) then 1 else 0
  }

  /** The state of the do-while of tty_read after copying out, with rest
      left in the queue and n to go. */
  ghost predicate DrainGoes(t: Termios, q0: seq<SChar>, nr: int, data0: int, out: seq<SChar>, rest: seq<SChar>, n: int, data: int)
    requires TermiosOk(t)
  {
    q0 == out + rest && data == data0 - LineEnds(t, out) &&
    Drain(t, q0, nr) == Drained(out + Drain(t, rest, n).out, Drain(t, rest, n).eof)
  }

  /** One character c taken off the queue in the do-while of tty_read: an
      EOF in canonical mode ends the drain. */
  lemma DrainTakesEof(t: Termios, q0: seq<SChar>, nr: int, data0: int, out: seq<SChar>, rest: seq<SChar>, n: int, data: int, c: SChar, rest': seq<SChar>)
    requires TermiosOk(t) && DrainGoes(t, q0, nr, data0, out, rest, n, data) && n > 0 && rest == [c] + rest'
    requires Bit(t.lflag, ICANON) && Is(t, c, VEOF)
    ensures Drain(t, q0, nr) == Drained(out, true) && Taken(Drained(out, true)) <= |q0| && q0[Taken(Drained(out, true))..] == rest'
    ensures data - 1 == data0 - LineEnds(t, q0[..Taken(Drained(out, true))])
  {
    assert q0[..|out| + 1] == out + [c];
    assert (out + [c])[..|out|] == out;
    assert q0[|out| + 1..] == rest';
  }

  /** Any other character is copied. */
  lemma DrainCopies(t: Termios, q0: seq<SChar>, nr: int, data0: int, out: seq<SChar>, rest: seq<SChar>, n: int, data: int, c: SChar, rest': seq<SChar>)
    requires TermiosOk(t) && DrainGoes(t, q0, nr, data0, out, rest, n, data) && n > 0 && rest == [c] + rest'
    requires !(Bit(t.lflag, ICANON) && Is(t, c, VEOF))
    ensures DrainGoes(t, q0, nr, data0, out + [c], rest', n - 1, if c == NL || Is(t, c, VEOF) then data - 1 else data)
  {
    assert rest[1..] == rest';
    assert (out + [c])[..|out|] == out;
  }

  /** The drain stops with nothing more to take. */
  lemma DrainEnds(t: Termios, q0: seq<SChar>, nr: int, data0: int, out: seq<SChar>, rest: seq<SChar>, n: int, data: int)
    requires TermiosOk(t) && DrainGoes(t, q0, nr, data0, out, rest, n, data) && (n <= 0 || rest == [])
    ensures Drain(t, q0, nr) == Drained(out, false) && q0[|out|..] == rest && q0[..|out|] == out &&
      data == data0 - LineEnds(t, q0[..|out|])
  {
    assert q0[..|out|] == out;
  }

  /** What tty_read gives back: the status, the return value, the characters
      copied to the user, the number of characters taken from the cooked
      queue, and the task's signal and alarm words after the call. */
  datatype ReadOut = ReadOut(status: Status, ret: int, out: seq<SChar>, taken: nat, signal: nat, alarm: int)

  /** Whether tty_read arms the alarm: VTIME is set and VMIN is not. */
  predicate Timed(t: Termios)
    requires TermiosOk(t)
  {
    t.cc[VTIME] != 0 && t.cc[VMIN] == 0
  }

  /** The alarm tty_read sets for time = VTIME tenths of a second, unless an
      earlier alarm is already pending. */
  function ReadAlarm(t: Termios, jiffies: int, alarm: int): int
    requires TermiosOk(t)
  {
    if Arms(t, jiffies, alarm) then 10 * t.cc[VTIME] + jiffies else alarm
  }

  /** The fewest characters a raw read waits for: VMIN, or one when only
      VTIME is set, and never more than nr. */
  function ReadMinimum(t: Termios, nr: int): int
    requires TermiosOk(t)
  {
    var m := if Timed(t) then 1 else t.cc[VMIN];
    if m > nr then nr else m
  }

  /** Whether no alarm is pending or the pending one is later. */
  predicate Arms(t: Termios, jiffies: int, alarm: int)
    requires TermiosOk(t)
  {
    alarm == 0 || 10 * t.cc[VTIME] + jiffies < alarm
  }

  /** tty_read on a cooked queue q holding lines line ends, for a task with
      the given signal and alarm words at time jiffies, as long as nothing
      else runs: with an alarm armed and pending the alarm bit is cleared
      and nothing read; any other signal gives -EINTR; an empty queue, or
      in canonical mode a queue yet without a line and with more than 20
      free places, makes the task wait; otherwise characters are copied,
      and a raw read that has fewer than the minimum waits for more. */
  function ReadSpec(t: Termios, q: seq<SChar>, lines: int, nr: int, jiffies: int, signal: nat, alarm: int): ReadOut
    requires TermiosOk(t)
  {
    var flag := Timed(t) && Arms(t, jiffies, alarm);
    if nr < 0 then ReadOut(Done, -1, [], 0, signal, alarm)
    else if nr == 0 then ReadOut(Done, if signal != 0 then -EINTR else 0, [], 0, signal, alarm)
    else if flag && Bit(signal, 13) then
      var s := AndNot(signal, ALRMMASK);
      ReadOut(Done, if s != 0 then -EINTR else 0, [], 0, s, alarm)
    else if signal != 0 then ReadOut(Done, -EINTR, [], 0, signal, alarm)
    else if q == [] then ReadOut(Asleep, 0, [], 0, signal, Armed(t, jiffies, alarm))
    else if Bit(t.lflag, ICANON) && lines == 0 && CAPACITY - |q| > 20 then ReadOut(Spins, 0, [], 0, signal, Armed(t, jiffies, alarm))
    else AfterDrain(t, Drain(t, q, nr), nr, jiffies, alarm)
  }

  /** The alarm while tty_read runs. */
  function Armed(t: Termios, jiffies: int, alarm: int): int
    requires TermiosOk(t)
  {
    if Timed(t) then ReadAlarm(t, jiffies, alarm) else alarm
  }

  /** tty_read once characters are drained with no signal pending: an EOF
      returns at once, a canonical read or one that has its minimum ends,
      and a raw read short of it waits for more. */
  function AfterDrain(t: Termios, d: Drained, nr: int, jiffies: int, alarm: int): ReadOut
    requires TermiosOk(t)
  {
    var minimum := if Timed(t) then 1 else t.cc[VMIN];
    if d.eof then ReadOut(Done, |d.out|, d.out, Taken(d), 0, Armed(t, jiffies, alarm))
    else if Bit(t.lflag, ICANON) || |d.out| >= minimum || |d.out| >= nr then ReadOut(Done, |d.out|, d.out, |d.out|, 0, alarm)
    else ReadOut(Asleep, |d.out|, d.out, |d.out|, 0, if t.cc[VTIME] != 0 then ReadAlarm(t, jiffies, alarm) else alarm)
  }

  /** How tty_read ends after its loop, with the alarm put back. */
  function ReadEnds(signal: nat, out: seq<SChar>, taken: nat, alarm: int): ReadOut
  {
    ReadOut(Done, if signal != 0 && |out| == 0 then -EINTR else |out|, out, taken, signal, alarm)
  }

  /** tty_read asked for nothing. */
  lemma ReadNothing(t: Termios, q: seq<SChar>, lines: int, jiffies: int, signal: nat, alarm: int)
    requires TermiosOk(t)
    ensures ReadSpec(t, q, lines, 0, jiffies, signal, alarm) == ReadOut(Done, if signal != 0 then -EINTR else 0, [], 0, signal, alarm)
  {
  }

  /** tty_read with a signal pending at the start: an armed alarm that has
      gone off is cleared, and the read ends. */
  lemma ReadSignalled(t: Termios, q: seq<SChar>, lines: int, nr: int, jiffies: int, signal: nat, alarm: int)
    requires TermiosOk(t) && nr > 0
    ensures var flag := Timed(t) && Arms(t, jiffies, alarm);
      var r := ReadSpec(t, q, lines, nr, jiffies, signal, alarm);
      (flag && Bit(signal, 13) ==>
         r == ReadOut(Done, if AndNot(signal, ALRMMASK) != 0 then -EINTR else 0, [], 0, AndNot(signal, ALRMMASK), alarm)) &&
      (!(flag && Bit(signal, 13)) && signal != 0 ==> r == ReadOut(Done, -EINTR, [], 0, signal, alarm))
  {
  }

  /** tty_read with no signal pending: it waits on an empty queue, spins on
      a canonical queue without a line, and otherwise drains. */
  lemma ReadUnsignalled(t: Termios, q: seq<SChar>, lines: int, nr: int, jiffies: int, alarm: int)
    requires TermiosOk(t) && nr > 0
    ensures var r := ReadSpec(t, q, lines, nr, jiffies, 0, alarm);
      var spins := Bit(t.lflag, ICANON) && lines == 0 && CAPACITY - |q| > 20;
      (q == [] ==> r == ReadOut(Asleep, 0, [], 0, 0, Armed(t, jiffies, alarm))) &&
      (q != [] && spins ==> r == ReadOut(Spins, 0, [], 0, 0, Armed(t, jiffies, alarm))) &&
      (q != [] && !spins ==> r == AfterDrain(t, Drain(t, q, nr), nr, jiffies, alarm))
  {
    BitOfZero(13);
  }

  /** What a drain of q leaves to tty_read. */
  lemma ReadDrains(t: Termios, q: seq<SChar>, nr: int, jiffies: int, alarm: int, d: Drained)
    requires TermiosOk(t) && nr > 0 && d == Drain(t, q, nr)
    ensures Taken(d) <= |q| && |d.out| <= nr && q[..|d.out|] == d.out
    ensures !d.eof && !Bit(t.lflag, ICANON) && |d.out| < (if Timed(t) then 1 else t.cc[VMIN]) && |d.out| < nr ==>
      |d.out| == |q| && q[..|q|] == q
  {
    DrainMeans(t, q, nr);
  }

  /** A canonical read that ends at an EOF character returns without putting
      back the task's alarm, so the alarm tty_read armed stays set. */
  lemma EofKeepsAlarm(t: Termios, q: seq<SChar>, lines: int, nr: int, jiffies: int, alarm: int)
    requires TermiosOk(t) && Bit(t.lflag, ICANON) && Timed(t)
    requires q != [] && Is(t, q[0], VEOF) && lines > 0 && nr > 0 && alarm == 0 && jiffies >= 0
    ensures ReadSpec(t, q, lines, nr, jiffies, 0, alarm) == ReadOut(Done, 0, [], 1, 0, 10 * t.cc[VTIME] + jiffies)
    ensures 10 * t.cc[VTIME] + jiffies != alarm
  {
    BitOfZero(13);
    assert Drain(t, q, nr) == Drained([], true);
  }

  /** tty_read returns what it copied, the oldest characters of the cooked
      queue, at most nr; it leaves the alarm as it found it whenever it
      returns other than at an EOF; and a pending signal other than the
      armed alarm gives -EINTR with nothing read. */
  lemma ReadMeans(t: Termios, q: seq<SChar>, lines: int, nr: int, jiffies: int, signal: nat, alarm: int)
    requires TermiosOk(t)
    ensures var r := ReadSpec(t, q, lines, nr, jiffies, signal, alarm);
      r.taken <= |q| && |r.out| <= r.taken && r.out == q[..|r.out|] && (nr >= 0 ==> |r.out| <= nr) &&
      (r.status == Done && r.ret >= 0 ==> r.ret == |r.out|) &&
      (r.status == Done && r.taken == |r.out| ==> r.alarm == alarm) &&
      (signal != 0 && !Timed(t) && nr >= 0 ==> r.status == Done && r.ret == -EINTR && r.out == [])
  {
    DrainMeans(t, q, nr);
  }

  /** The CR/NL output mapping of tty_write under OPOST. */
  function MapOut(t: Termios, c: SChar): SChar
  {
    if c == CR && Bit(t.oflag, OCRNL) then NL
    else if c == NL && Bit(t.oflag, ONLRET) then CR
    else c
  }

  /** What the inner loop of tty_write puts on the write queue. */
  datatype Emitted = Emitted(put: seq<SChar>, consumed: nat, cr: bool)

  /** The inner loop of tty_write on the user's characters input with room
      free places in the write queue and the flag cr_flag, which says that
      the CR before an NL has already been put. */
  function Emit(t: Termios, cr: bool, input: seq<SChar>, room: nat): (e: Emitted)
    decreases room
  {
    if input == [] || room == 0 then Emitted([], 0, cr)
    else if !Bit(t.oflag, OPOST) then
      var e := Emit(t, false, input[1..], room - 1);
      Emitted([input[0]] + e.put, e.consumed + 1, e.cr)
    else
      var c := MapOut(t, input[0]);
      if c == NL && !cr && Bit(t.oflag, ONLCR) then
        var e := Emit(t, true, input, room - 1);
        Emitted([CR] + e.put, e.consumed, e.cr)
      else
        var e := Emit(t, false, input[1..], room - 1);
        Emitted([if Bit(t.oflag, OLCUC) then ToUpper(c) else c] + e.put, e.consumed + 1, e.cr)
  }

  /** The inner loop fills at most the room, and takes every character or
      fills all of it. */
  lemma {:induction false} EmitBounds(t: Termios, cr: bool, input: seq<SChar>, room: nat)
    ensures var e := Emit(t, cr, input, room);
      e.consumed <= |input| && e.consumed <= |e.put| <= room && (e.consumed < |input| ==> |e.put| == room)
    decreases room
  {
    if input != [] && room != 0 {
      if Bit(t.oflag, OPOST) && MapOut(t, input[0]) == NL && !cr && Bit(t.oflag, ONLCR) {
        EmitBounds(t, true, input, room - 1);
      } else {
        EmitBounds(t, false, input[1..], room - 1);
      }
    }
  }

  /** Without OPOST the characters are written unchanged. */
  lemma {:induction false} EmitRaw(t: Termios, cr: bool, input: seq<SChar>, room: nat)
    requires !Bit(t.oflag, OPOST)
    ensures var e := Emit(t, cr, input, room);
      e.consumed == (if |input| < room then |input| else room) && e.put == input[..e.consumed]
    decreases room
  {
    if input != [] && room != 0 {
      EmitRaw(t, false, input[1..], room - 1);
      var e := Emit(t, false, input[1..], room - 1);
      assert [input[0]] + input[1..][..e.consumed] == input[..e.consumed + 1];
    }
  }

  /** A character as tty_write puts it when it is not an NL that needs a
      CR first. */
  function OutChar(t: Termios, c: SChar): SChar
  {
    if !Bit(t.oflag, OPOST) then c
    else if Bit(t.oflag, OLCUC) then ToUpper(MapOut(t, c))
    else MapOut(t, c)
  }

  /** The inner loop of tty_write has put q0's successors up to q with b
      characters consumed; what remains of it, from rest with left places
      free and cr_flag cr, yields the rest of total. */
  ghost predicate EmitGoes(t: Termios, cr: bool, rest: seq<SChar>, left: nat, q: seq<SChar>, total: Emitted, q0: seq<SChar>, b: nat)
  {
    var e := Emit(t, cr, rest, left);
    q + e.put == q0 + total.put && b + e.consumed == total.consumed && e.cr == total.cr
  }

  /** A turn of the inner loop that puts the CR before an NL. */
  lemma EmitPutsCr(t: Termios, cr: bool, rest: seq<SChar>, left: nat, q: seq<SChar>, total: Emitted, q0: seq<SChar>, b: nat)
    requires EmitGoes(t, cr, rest, left, q, total, q0, b) && rest != [] && left > 0
    requires Bit(t.oflag, OPOST) && MapOut(t, rest[0]) == NL && !cr && Bit(t.oflag, ONLCR)
    ensures EmitGoes(t, true, rest, left - 1, q + [CR], total, q0, b)
  {
    var e := Emit(t, true, rest, left - 1);
    assert q + [CR] + e.put == q + ([CR] + e.put);
  }

  /** The inner loop stops with the input used up or the queue full. */
  lemma EmitDone(t: Termios, cr: bool, rest: seq<SChar>, left: nat, q: seq<SChar>, total: Emitted, q0: seq<SChar>, b: nat)
    requires EmitGoes(t, cr, rest, left, q, total, q0, b) && (rest == [] || left == 0)
    ensures q == q0 + total.put && b == total.consumed && cr == total.cr
  {
  }

  /** A turn of the inner loop that consumes a character. */
  lemma EmitPutsChar(t: Termios, cr: bool, rest: seq<SChar>, left: nat, q: seq<SChar>, total: Emitted, q0: seq<SChar>, b: nat)
    requires EmitGoes(t, cr, rest, left, q, total, q0, b) && rest != [] && left > 0
    requires !(Bit(t.oflag, OPOST) && MapOut(t, rest[0]) == NL && !cr && Bit(t.oflag, ONLCR))
    ensures EmitGoes(t, false, rest[1..], left - 1, q + [OutChar(t, rest[0])], total, q0, b + 1)
  {
    var e := Emit(t, false, rest[1..], left - 1);
    assert q + [OutChar(t, rest[0])] + e.put == q + ([OutChar(t, rest[0])] + e.put);
  }

  /** The characters with CR put before every NL, as ONLCR writes them. */
  function Crlf(s: seq<SChar>): (r: seq<SChar>)
    ensures |r| >= |s|
  {
    if s == [] then [] else (if s[0] == NL then [CR, NL] else [s[0]]) + Crlf(s[1..])
  }

  /** With OPOST and ONLCR alone and room enough, every NL goes out as
      CR NL and all of the input is taken. */
  lemma {:induction false} EmitCrlf(t: Termios, input: seq<SChar>, room: nat)
    requires Bit(t.oflag, OPOST) && Bit(t.oflag, ONLCR)
    requires !Bit(t.oflag, OCRNL) && !Bit(t.oflag, ONLRET) && !Bit(t.oflag, OLCUC)
    requires |Crlf(input)| <= room
    ensures Emit(t, false, input, room) == Emitted(Crlf(input), |input|, false)
    decreases |input|
  {
    if input != [] {
      var k := if input[0] == NL then 2 else 1;
      assert |Crlf(input)| == k + |Crlf(input[1..])|;
      EmitCrlf(t, input[1..], room - k);
      if input[0] == NL {
        assert Emit(t, true, input, room - 1) == Emitted([NL] + Crlf(input[1..]), |input|, false);
      }
    }
  }

  /** The variables of the loop of tty_read: nr, what is copied, the
      signal word, the characters taken, flag and the task's alarm. */
  datatype ReadVars = ReadVars(n: int, out: seq<SChar>, sig: nat, taken: nat, flag: bool, current: int)

  /** How a turn of the loop of tty_read ends. */
  datatype PassEnd = Again | Break | Return(r: ReadOut)

  /** The loop of tty_read before its first turn, and before its second,
      which only follows a raw read short of its minimum with the queue
      drained; rest and data are the cooked queue and its line count. */
  ghost predicate PassInv(t: Termios, q0: seq<SChar>, data0: int, nr: int, jiffies: int, signal: nat, alarm: int,
                          pass: int, v: ReadVars, rest: seq<SChar>, data: int)
    requires TermiosOk(t)
  {
    v.n == nr - |v.out| &&
    (pass == 0 ==> v.out == [] && v.taken == 0 && v.sig == signal && rest == q0 && data == data0 &&
                   v.flag == (Timed(t) && Arms(t, jiffies, alarm)) && v.current == Armed(t, jiffies, alarm)) &&
    (pass == 1 ==> v.n > 0 && v.sig == 0 && rest == [] &&
                   ReadSpec(t, q0, data0, nr, jiffies, signal, alarm) == ReadOut(Asleep, |v.out|, v.out, v.taken, 0, v.current))
  }

  /** struct tty_struct: the termios, the process group, the stopped flag
      and the three queues. */
  class Terminal {
    var termios: Termios
    var pgrp: int
    var stopped: bool
    const readQ: Queue
    const writeQ: Queue
    const secondary: Queue

    ghost predicate Valid()
      reads this, readQ, writeQ, secondary
    {
      TermiosOk(termios) && readQ.Valid() && writeQ.Valid() && secondary.Valid() &&
      readQ != writeQ && readQ != secondary && writeQ != secondary &&
      readQ.buf != writeQ.buf && readQ.buf != secondary.buf && writeQ.buf != secondary.buf
    }

    /** The state copy_to_cooked changes, with the task table. */
    ghost function Abs(tasks: array<Option<Task>>): Cook
      requires Valid()
      reads this, readQ, writeQ, secondary, writeQ.buf, secondary.buf, tasks
    {
      Cook(secondary.Contents(), writeQ.Contents(), stopped, secondary.data, tasks[..])
    }

    constructor (termios: Termios, readData: int)
      requires TermiosOk(termios)
      ensures Valid() && this.termios == termios && pgrp == 0 && !stopped
      ensures readQ.data == readData && readQ.Contents() == [] && writeQ.Contents() == []
      ensures secondary.Contents() == [] && secondary.data == 0
    {
      this.termios := termios;
      pgrp, stopped := 0, false;
      readQ := new Queue(readData);
      writeQ := new Queue(0);
      secondary := new Queue(0);
    }

    /** tty_intr (kernel/chr_drv/tty_io.c) */
    method TtyIntr(tasks: array<Option<Task>>, mask: nat)
      modifies tasks
      ensures tasks[..] == Intr(old(tasks[..]), pgrp, mask)
    {
      if pgrp <= 0 {
        return;
      }
      var i := 0;
      while i < tasks.Length
        invariant 0 <= i <= tasks.Length
        invariant forall j :: 0 <= j < i ==> tasks[j] == Intr(old(tasks[..]), pgrp, mask)[j]
        invariant forall j :: i <= j < tasks.Length ==> tasks[j] == old(tasks[j])
      {
        if tasks[i].Some? && tasks[i].value.pgrp == pgrp {
          tasks[i] := Some(Task(pgrp, Or(tasks[i].value.signal, mask)));
        }
        i := i + 1;
      }
    }

    /** The echo of an erased character, as ERASE and KILL write it. */
    method EchoErased(c: SChar)
      requires Valid()
      modifies writeQ`head, writeQ.buf
      ensures Valid() && writeQ.Contents() == EchoErase(termios, old(writeQ.Contents()), c)
    {
      if Bit(termios.lflag, ECHO) {
        if c < 32 {
          writeQ.Putch(DEL);
        }
        writeQ.Putch(DEL);
      }
    }

    /** Whether the cooked queue is empty or its last character ends a
        line, as the loops of ERASE and KILL test it. */
    method AtLineStart() returns (b: bool)
      requires Valid()
      ensures b == LineStart(termios, secondary.Contents())
    {
      Room(secondary);
      if secondary.Empty() {
        return true;
      }
      LastIsNewest(secondary);
      var c := secondary.Last();
      b := c == NL || c as int == termios.cc[VEOF];
    }

    /** The newest cooked character removed, with its echo. */
    method EraseLast(ghost tasks: array<Option<Task>>)
      requires Valid() && secondary.Contents() != []
      modifies writeQ`head, writeQ.buf, secondary`head
      ensures Valid() && Abs(tasks) == EraseOne(termios, old(Abs(tasks)))
    {
      Room(secondary);
      LastIsNewest(secondary);
      var c := secondary.Last();
      EchoErased(c);
      secondary.DecHead();
    }

    /** The KILL character: the line is erased. */
    method KillLine(ghost tasks: array<Option<Task>>)
      requires Valid()
      modifies writeQ`head, writeQ.buf, secondary`head
      ensures Valid() && Abs(tasks) == Kill(termios, old(Abs(tasks)))
    {
      var start := AtLineStart();
      while !start
        invariant Valid() && start == LineStart(termios, secondary.Contents())
        invariant Kill(termios, Abs(tasks)) == Kill(termios, old(Abs(tasks)))
        decreases secondary.Chars()
      {
        EraseLast(tasks);
        start := AtLineStart();
      }
    }

    /** The ERASE character. */
    method EraseChar(ghost tasks: array<Option<Task>>)
      requires Valid()
      modifies writeQ`head, writeQ.buf, secondary`head
      ensures Valid() && Abs(tasks) == Erase(termios, old(Abs(tasks)))
    {
      var start := AtLineStart();
      if !start {
        EraseLast(tasks);
      }
    }

    /** The echo of a character going to the cooked queue. */
    method EchoStored(c: SChar)
      requires Valid()
      modifies writeQ`head, writeQ.buf
      ensures Valid() && writeQ.Contents() == EchoChar(termios, old(writeQ.Contents()), c)
    {
      if Bit(termios.lflag, ECHO) {
        if c == NL {
          writeQ.Putch(NL);
          writeQ.Putch(CR);
        } else if c < 32 {
          if Bit(termios.lflag, ECHOCTL) {
            writeQ.Putch('^' as int);
            writeQ.Putch(c + 64);
          }
        } else {
          writeQ.Putch(c);
        }
      }
    }

    /** A character counted, echoed and added to the cooked queue. */
    method StoreChar(c: SChar, ghost tasks: array<Option<Task>>)
      requires Valid()
      modifies writeQ`head, writeQ.buf, secondary`head, secondary`data, secondary.buf
      ensures Valid() && Abs(tasks) == Store(termios, old(Abs(tasks)), c)
    {
      if c == NL || c as int == termios.cc[VEOF] {
        secondary.data := secondary.data + 1;
      }
      EchoStored(c);
      secondary.Putch(c);
    }

    /** A mapped character: an editing, flow-control or signal character
        does its work, any other is stored. */
    method HandleChar(d: SChar, tasks: array<Option<Task>>)
      requires Valid()
      modifies writeQ`head, writeQ.buf, secondary`head, secondary`data, secondary.buf, this`stopped, tasks
      ensures Valid() && Abs(tasks) == Handle(termios, pgrp, old(Abs(tasks)), d)
    {
      var canon, isig := Bit(termios.lflag, ICANON), Bit(termios.lflag, ISIG);
      if canon && d as int == termios.cc[VKILL] {
        KillLine(tasks);
      } else if canon && d as int == termios.cc[VERASE] {
        EraseChar(tasks);
      } else if canon && d as int == termios.cc[VSTOP] {
        stopped := true;
      } else if canon && d as int == termios.cc[VSTART] {
        stopped := false;
      } else if isig && d as int == termios.cc[VINTR] {
        TtyIntr(tasks, INTMASK);
      } else if isig && d as int == termios.cc[VQUIT] {
        TtyIntr(tasks, QUITMASK);
      } else {
        StoreChar(d, tasks);
      }
    }

    /** copy_to_cooked (kernel/chr_drv/tty_io.c): the raw characters are
        cooked in order until the read queue is empty or the cooked queue
        full. */
    method CopyToCooked(tasks: array<Option<Task>>)
      requires Valid()
      modifies readQ`tail, writeQ`head, writeQ.buf, secondary`head, secondary`data, secondary.buf, this`stopped, tasks
      ensures Valid()
      ensures Abs(tasks) == Run(termios, pgrp, old(Abs(tasks)), old(readQ.Contents()))
      ensures readQ.Contents() == Unread(termios, pgrp, old(Abs(tasks)), old(readQ.Contents()))
    {
      ghost var s0, in0 := Abs(tasks), readQ.Contents();
      while !readQ.Empty() && !secondary.Full()
        invariant Valid()
        invariant Run(termios, pgrp, Abs(tasks), readQ.Contents()) == Run(termios, pgrp, s0, in0)
        invariant Unread(termios, pgrp, Abs(tasks), readQ.Contents()) == Unread(termios, pgrp, s0, in0)
        decreases readQ.Chars()
      {
        Room(secondary);
        ghost var before := Abs(tasks);
        var c := readQ.Getch();
        ghost var rest := readQ.Contents();
        RunTurn(termios, pgrp, before, c, rest);
        CookOne(c, tasks);
      }
      Room(readQ);
      Room(secondary);
      RunStops(termios, pgrp, Abs(tasks), readQ.Contents());
    }

    /** The characters after the raw one is mapped. */
    method CookOne(c: SChar, tasks: array<Option<Task>>)
      requires Valid()
      modifies writeQ`head, writeQ.buf, secondary`head, secondary`data, secondary.buf, this`stopped, tasks
      ensures Valid() && Abs(tasks) == Step(termios, pgrp, old(Abs(tasks)), c)
    {
      match MapIn(termios, c)
      case None =>
      case Some(d) => HandleChar(d, tasks);
    }
 
    /** The do-while of tty_read, entered with a queue that is not empty
        and nr > 0: characters are taken, NL and EOF counted off the
        lines, until nr are copied or the queue is empty; in canonical mode
        an EOF ends the read. */
    method DrainQueue(nr: int) returns (out: seq<SChar>, eof: bool)
      requires Valid() && nr > 0
      modifies secondary`tail, secondary`data
      ensures Valid() && Drained(out, eof) == Drain(termios, old(secondary.Contents()), nr)
      ensures Taken(Drained(out, eof)) <= |old(secondary.Contents())|
      ensures secondary.Contents() == old(secondary.Contents())[Taken(Drained(out, eof))..]
      ensures secondary.data == old(secondary.data) - LineEnds(termios, old(secondary.Contents())[..Taken(Drained(out, eof))])
    {
      ghost var q0, data0 := secondary.Contents(), secondary.data;
      ghost var rest := q0;
      out, eof := [], false;
      var n := nr;
      Room(secondary);
      assert q0 == out + rest;
      while n > 0 && !secondary.Empty()
        invariant Valid() && rest == secondary.Contents() && n == nr - |out|
        invariant DrainGoes(termios, q0, nr, data0, out, rest, n, secondary.data)
        decreases |rest|
      {
        var c;
        c, eof := DrainOne(q0, nr, data0, out, rest, n);
        if eof {
          return;
        }
        out, n, rest := out + [c], n - 1, secondary.Contents();
        Room(secondary);
      }
      Room(secondary);
      DrainEnds(termios, q0, nr, data0, out, rest, n, secondary.data);
    }

    /** The cooked queue q0 holding lines line ends once taken characters
        are taken off it. */
    ghost predicate Leaves(q0: seq<SChar>, lines: int, taken: nat)
      requires Valid()
      reads this, readQ, writeQ, secondary, secondary.buf
    {
      taken <= |q0| && secondary.Contents() == q0[taken..] && secondary.data == lines - LineEnds(termios, q0[..taken])
    }

    /** One turn of the do-while of tty_read: a character is taken and the
        line count kept; an EOF in canonical mode ends the read. */
    method DrainOne(ghost q0: seq<SChar>, nr: int, ghost data0: int, ghost out: seq<SChar>, ghost rest: seq<SChar>, n: int)
      returns (c: SChar, eof: bool)
      requires Valid() && n > 0 && rest == secondary.Contents() && !secondary.Empty()
      requires DrainGoes(termios, q0, nr, data0, out, rest, n, secondary.data)
      modifies secondary`tail, secondary`data
      ensures Valid()
      ensures eof ==> (Drain(termios, q0, nr) == Drained(out, true) && Taken(Drained(out, true)) <= |q0| &&
                       secondary.Contents() == q0[Taken(Drained(out, true))..] &&
                       secondary.data == data0 - LineEnds(termios, q0[..Taken(Drained(out, true))]))
      ensures !eof ==> (|secondary.Contents()| < |rest| &&
                        DrainGoes(termios, q0, nr, data0, out + [c], secondary.Contents(), n - 1, secondary.data))
    {
      ghost var data := secondary.data;
      c := secondary.Getch();
      ghost var rest' := secondary.Contents();
      if c as int == termios.cc[VEOF] && Bit(termios.lflag, ICANON) {
        DrainTakesEof(termios, q0, nr, data0, out, rest, n, data, c, rest');
        secondary.data := secondary.data - 1;
        return c, true;
      }
      DrainCopies(termios, q0, nr, data0, out, rest, n, data, c, rest');
      if c == NL || c as int == termios.cc[VEOF] {
        secondary.data := secondary.data - 1;
      }
      eof := false;
    }

    /** tty_read (kernel/chr_drv/tty_io.c) on this terminal as
        tty_table[channel], for the current task with the given signal and
        alarm words at time jiffies. A wait in sleep_if_empty ends the
        model's run with status Asleep, a busy loop with Spins. */
    method TtyRead(channel: nat, nr: int, jiffies: int, signal: nat, alarm: int) returns (r: ReadOut)
      requires Valid()
      modifies secondary`tail, secondary`data
      ensures Valid()
      ensures channel > 2 ==> r == ReadOut(Done, -1, [], 0, signal, alarm)
      ensures channel <= 2 ==> r == ReadSpec(termios, old(secondary.Contents()), old(secondary.data), nr, jiffies, signal, alarm)
      ensures Leaves(old(secondary.Contents()), old(secondary.data), r.taken)
    {
      ghost var q0, data0 := secondary.Contents(), secondary.data;
      assert q0[..0] == [];
      if channel > 2 || nr < 0 {
        return ReadOut(Done, -1, [], 0, signal, alarm);
      }
      var minimum := ReadMinimum(termios, nr);
      var flag := Timed(termios) && Arms(termios, jiffies, alarm);
      var current := Armed(termios, jiffies, alarm);
      var v := ReadVars(nr, [], signal, 0, flag, current);
      ghost var pass, ended := 0, false;
      while v.n > 0
        invariant Valid() && 0 <= pass <= 1 && !ended && Leaves(q0, data0, v.taken)
        invariant PassInv(termios, q0, data0, nr, jiffies, signal, alarm, pass, v, secondary.Contents(), secondary.data)
        decreases 1 - pass
      {
        var end;
        end, v := ReadPass(v, minimum, nr, jiffies, signal, alarm, q0, data0, pass);
        match end
        case Break =>
          ended := true;
          break;
        case Return(res) =>
          return res;
        case Again =>
          pass := 1;
      }
      current := alarm;
      if !ended {
        ReadNothing(termios, q0, data0, jiffies, signal, alarm);
      }
      if v.sig != 0 && |v.out| == 0 {
        return ReadOut(Done, -EINTR, v.out, v.taken, v.sig, current);
      }
      return ReadOut(Done, |v.out|, v.out, v.taken, v.sig, current);
    }

    /** One turn of the loop of tty_read: the signal tests, the waits, the
        do-while that copies characters, the alarm update of a raw read
        and the tests that end the loop. */
    method ReadPass(v: ReadVars, minimum: int, nr: int, jiffies: int, signal: nat, alarm: int,
                    ghost q0: seq<SChar>, ghost data0: int, ghost pass: int) returns (end: PassEnd, v': ReadVars)
      requires Valid() && v.n > 0 && nr > 0 && minimum == ReadMinimum(termios, nr) && Leaves(q0, data0, v.taken)
      requires 0 <= pass <= 1 && PassInv(termios, q0, data0, nr, jiffies, signal, alarm, pass, v, secondary.Contents(), secondary.data)
      modifies secondary`tail, secondary`data
      ensures Valid() && Leaves(q0, data0, v'.taken)
      ensures end == Again ==> pass == 0 && PassInv(termios, q0, data0, nr, jiffies, signal, alarm, 1, v', secondary.Contents(), secondary.data)
      ensures end == Break ==> ReadSpec(termios, q0, data0, nr, jiffies, signal, alarm) == ReadEnds(v'.sig, v'.out, v'.taken, alarm)
      ensures end.Return? ==> end.r == ReadSpec(termios, q0, data0, nr, jiffies, signal, alarm) && end.r.taken == v'.taken
    {
      v' := v;
      if pass == 0 {
        ReadSignalled(termios, q0, data0, nr, jiffies, signal, alarm);
      }
      if v.flag && Bit(v.sig, 13) {
        v' := v.(sig := AndNot(v.sig, ALRMMASK));
        return Break, v';
      }
      if v.sig != 0 {
        return Break, v';
      }
      if pass == 0 {
        ReadUnsignalled(termios, q0, data0, nr, jiffies, alarm);
      }
      Room(secondary);
      if secondary.Empty() {
        return Return(ReadOut(Asleep, |v.out|, v.out, v.taken, v.sig, v.current)), v';
      }
      var canon := Bit(termios.lflag, ICANON);
      if canon && secondary.data == 0 && secondary.Left() > 20 {
        return Return(ReadOut(Spins, |v.out|, v.out, v.taken, v.sig, v.current)), v';
      }
      assert pass == 0 && q0[..0] == [];
      var more, eof := DrainQueue(v.n);
      ReadDrains(termios, q0, nr, jiffies, alarm, Drained(more, eof));
      v' := v.(out := more, taken := Taken(Drained(more, eof)), n := v.n - |more|);
      if eof {
        return Return(ReadOut(Done, |v'.out|, v'.out, v'.taken, v'.sig, v'.current)), v';
      }
      if termios.cc[VTIME] != 0 && !canon {
        v' := v'.(flag := Arms(termios, jiffies, alarm), current := ReadAlarm(termios, jiffies, alarm));
      }
      if canon {
        if |v'.out| > 0 {
          return Break, v';
        }
      } else if |v'.out| >= minimum {
        return Break, v';
      }
      end := Again;
    }

    /** tty_write (kernel/chr_drv/tty_io.c) on this terminal as
        tty_table[channel], writing the first nr of the user's characters
        buf; cr is the static cr_flag, given back as crFlag. A wait in
        sleep_if_full ends the model's run with status Asleep. */
    method TtyWrite(channel: nat, buf: seq<SChar>, nr: int, signal: nat, cr: bool) returns (st: Status, ret: int, crFlag: bool)
      requires Valid() && nr <= |buf|
      modifies writeQ`head, writeQ.buf
      ensures Valid()
      ensures channel > 2 || nr < 0 ==> st == Done && ret == -1 && crFlag == cr && writeQ.Contents() == old(writeQ.Contents())
      ensures channel <= 2 && 0 <= nr && (nr == 0 || signal != 0) ==> st == Done && ret == 0 && crFlag == cr && writeQ.Contents() == old(writeQ.Contents())
      ensures channel <= 2 && 0 < nr && signal == 0 ==>
        var e := Emit(termios, cr, buf[..nr], CAPACITY - |old(writeQ.Contents())|);
        writeQ.Contents() == old(writeQ.Contents()) + e.put && ret == e.consumed && crFlag == e.cr &&
        st == if e.consumed == nr then Done else Asleep
    {
      if channel > 2 || nr < 0 {
        return Done, -1, cr;
      }
      ghost var q0 := writeQ.Contents();
      ghost var e0 := Emit(termios, cr, buf[..nr], CAPACITY - |q0|);
      EmitBounds(termios, cr, buf[..nr], CAPACITY - |q0|);
      var n, b := nr, 0;
      crFlag := cr;
      ghost var pass := 0;
      while n > 0
        invariant Valid() && 0 <= pass <= 1 && 0 <= b <= nr && n == nr - b
        invariant pass == 0 ==> b == 0 && crFlag == cr && writeQ.Contents() == q0
        invariant pass == 1 ==> signal == 0 && (n > 0 ==> writeQ.Full()) && writeQ.Contents() == q0 + e0.put && b == e0.consumed && crFlag == e0.cr
        decreases 1 - pass
      {
        Room(writeQ);
        if writeQ.Full() && signal == 0 {
          return Asleep, b, crFlag;
        }
        if signal != 0 {
          break;
        }
        b, crFlag := FillWriteQ(buf, nr, b, crFlag);
        n := nr - b;
        Room(writeQ);
        pass := 1;
      }
      return Done, b, crFlag;
    }

    /** One turn of the inner loop of tty_write: the CR before an NL, or a
        character mapped and consumed. */
    method FillOne(buf: seq<SChar>, nr: int, b0: int, b: int, cr: bool, ghost q0: seq<SChar>, ghost e0: Emitted)
      returns (b': int, crFlag: bool)
      requires Valid() && 0 <= b0 <= b < nr <= |buf| && !writeQ.Full()
      requires EmitGoes(termios, cr, buf[b..nr], writeQ.Left(), writeQ.Contents(), e0, q0, b - b0)
      modifies writeQ`head, writeQ.buf
      ensures Valid() && b <= b' <= nr && writeQ.Left() < old(writeQ.Left())
      ensures EmitGoes(termios, crFlag, buf[b'..nr], writeQ.Left(), writeQ.Contents(), e0, q0, b' - b0)
    {
      Room(writeQ);
      ghost var q, left := writeQ.Contents(), writeQ.Left();
      assert buf[b..nr][0] == buf[b] && buf[b..nr][1..] == buf[b + 1..nr];
      if Bit(termios.oflag, OPOST) && MapOut(termios, buf[b]) == NL && !cr && Bit(termios.oflag, ONLCR) {
        EmitPutsCr(termios, cr, buf[b..nr], left, q, e0, q0, b - b0);
        writeQ.Putch(CR);
        Room(writeQ);
        assert writeQ.Contents() == q + [CR] && writeQ.Left() == left - 1;
        return b, true;
      }
      var c := OutChar(termios, buf[b]);
      EmitPutsChar(termios, cr, buf[b..nr], left, q, e0, q0, b - b0);
      writeQ.Putch(c);
      Room(writeQ);
      assert writeQ.Contents() == q + [c] && writeQ.Left() == left - 1;
      return b + 1, false;
    }

    /** The inner loop of tty_write: characters from buf[b0] on are mapped
        and put until nr are consumed or the write queue is full. */
    method FillWriteQ(buf: seq<SChar>, nr: int, b0: int, cr0: bool) returns (b: int, crFlag: bool)
      requires Valid() && 0 <= b0 <= nr <= |buf|
      modifies writeQ`head, writeQ.buf
      ensures Valid() && b0 <= b <= nr && (b < nr ==> writeQ.Full())
      ensures var e := Emit(termios, cr0, buf[b0..nr], old(writeQ.Left()));
        writeQ.Contents() == old(writeQ.Contents()) + e.put && b == b0 + e.consumed && crFlag == e.cr
    {
      ghost var q0, e0 := writeQ.Contents(), Emit(termios, cr0, buf[b0..nr], writeQ.Left());
      b, crFlag := b0, cr0;
      assert EmitGoes(termios, crFlag, buf[b..nr], writeQ.Left(), writeQ.Contents(), e0, q0, 0);
      Room(writeQ);
      while b < nr && !writeQ.Full()
        invariant Valid() && b0 <= b <= nr
        invariant EmitGoes(termios, crFlag, buf[b..nr], writeQ.Left(), writeQ.Contents(), e0, q0, b - b0)
        decreases writeQ.Left()
      {
        b, crFlag := FillOne(buf, nr, b0, b, crFlag, q0, e0);
      }
      Room(writeQ);
      EmitDone(termios, crFlag, buf[b..nr], writeQ.Left(), writeQ.Contents(), e0, q0, b - b0);
    }
  }
}
