/** The terminal queues of include/linux/tty.h: a 1024-byte ring buffer with
    a head where PUTCH stores and a tail where GETCH takes, both moved on
    with INC and masked with TTY_BUF_SIZE - 1. One slot always stays free,
    so a queue holds at most 1023 characters. Characters are C chars, which
    are signed on the i386. */
module TtyQueue {

  type SChar = x: int | -128 <= x < 128

  const TTY_BUF_SIZE: int := 1024
  /** The most characters a queue can hold. */
  const CAPACITY: int := TTY_BUF_SIZE - 1

  /** x & (TTY_BUF_SIZE - 1) on the unsigned long indices: the remainder
      that is never negative. */
  function Mask(x: int): (r: int)
    ensures 0 <= r < TTY_BUF_SIZE
  {
    x % TTY_BUF_SIZE
  }

  /** The contents after PUTCH c: c is added after the newest character; on
      a full queue the head catches up with the tail and the queue reads as
      empty, every character lost. */
  function Put(q: seq<SChar>, c: SChar): seq<SChar>
  {
    if |q| == CAPACITY then [] else q + [c]
  }

  /** The distance from tail to head, as CHARS computes it. */
  lemma Distance(head: int, tail: int)
    requires 0 <= head < TTY_BUF_SIZE && 0 <= tail < TTY_BUF_SIZE
    ensures Mask(head - tail) == if tail <= head then head - tail else head - tail + TTY_BUF_SIZE
    ensures Mask(tail - head - 1) == CAPACITY - Mask(head - tail)
  {
  }

  /** The positions tail, tail + 1, ... up to head. */
  lemma Positions(head: int, tail: int, i: int)
    requires 0 <= head < TTY_BUF_SIZE && 0 <= tail < TTY_BUF_SIZE && 0 <= i <= Mask(head - tail)
    ensures Mask(tail + i) == head <==> i == Mask(head - tail)
  {
    Distance(head, tail);
  }

  predicate Index(x: int)
  {
    0 <= x < TTY_BUF_SIZE
  }

  /** The characters of b from tail up to head, oldest first. */
  function Ring(b: seq<SChar>, head: int, tail: int): (r: seq<SChar>)
    requires |b| == TTY_BUF_SIZE && Index(head) && Index(tail)
    ensures |r| == Mask(head - tail)
  {
    seq(Mask(head - tail), i requires 0 <= i < Mask(head - tail) => b[Mask(tail + i)])
  }

  /** Storing c at the head and moving the head on is Put. */
  lemma RingPut(b: seq<SChar>, head: int, tail: int, c: SChar)
    requires |b| == TTY_BUF_SIZE && Index(head) && Index(tail)
    ensures Ring(b[head := c], Mask(head + 1), tail) == Put(Ring(b, head, tail), c)
  {
    Distance(head, tail);
    Distance(Mask(head + 1), tail);
    var n := Mask(head - tail);
    if n < CAPACITY {
      var r := Ring(b[head := c], Mask(head + 1), tail);
      assert |r| == n + 1;
      forall i | 0 <= i < n + 1
        ensures r[i] == (Ring(b, head, tail) + [c])[i]
      {
        Positions(head, tail, i);
      }
    }
  }

  /** Moving the tail on drops the oldest character. */
  lemma RingGet(b: seq<SChar>, head: int, tail: int)
    requires |b| == TTY_BUF_SIZE && Index(head) && Index(tail) && head != tail
    ensures Ring(b, head, tail) == [b[tail]] + Ring(b, head, Mask(tail + 1))
  {
    Distance(head, tail);
    Distance(head, Mask(tail + 1));
    var r := Ring(b, head, Mask(tail + 1));
    var q := Ring(b, head, tail);
    assert |q| == |r| + 1;
    assert Mask(tail + 0) == tail;
    assert q[0] == b[tail];
    forall i | 0 <= i < |r|
      ensures r[i] == q[i + 1]
    {
      assert Mask(Mask(tail + 1) + i) == Mask(tail + i + 1);
    }
    assert q == [b[tail]] + r;
  }

  /** Moving the head back drops the newest character. */
  lemma RingDec(b: seq<SChar>, head: int, tail: int)
    requires |b| == TTY_BUF_SIZE && Index(head) && Index(tail) && head != tail
    ensures Ring(b, Mask(head - 1), tail) == Ring(b, head, tail)[..Mask(head - tail) - 1]
    ensures b[Mask(head - 1)] == Ring(b, head, tail)[Mask(head - tail) - 1]
  {
    Distance(head, tail);
    Distance(Mask(head - 1), tail);
    assert Mask(tail + (Mask(head - tail) - 1)) == Mask(head - 1);
  }

  class Queue {
    /** struct tty_queue's data: the number of lines in a secondary queue,
        the port of a serial read queue. */
    var data: int
    var head: int
    var tail: int
    const buf: array<SChar>

    ghost predicate Valid()
      reads this
    {
      buf.Length == TTY_BUF_SIZE && Index(head) && Index(tail)
    }

    /** CHARS */
    function Chars(): int
      reads this
    {
      Mask(head - tail)
    }

    /** LEFT */
    function Left(): int
      reads this
    {
      Mask(tail - head - 1)
    }

    /** EMPTY */
    predicate Empty()
      reads this
    {
      head == tail
    }

    /** FULL */
    predicate Full()
      reads this
    {
      Left() == 0
    }

    /** LAST: the character before the head. */
    function Last(): SChar
      requires Valid()
      reads this, buf
    {
      buf[Mask(head - 1)]
    }

    /** The characters waiting, oldest first. */
    ghost function Contents(): (r: seq<SChar>)
      requires Valid()
      reads this, buf
      ensures |r| == Chars()
    {
      Ring(buf[..], head, tail)
    }

    /** An empty queue, as the tty_table initialiser leaves it. */
    constructor (data: int)
      ensures Valid() && fresh(buf) && this.data == data && head == 0 && tail == 0
      ensures Contents() == []
    {
      this.data := data;
      head, tail := 0, 0;
      buf := new SChar[TTY_BUF_SIZE](_ => 0);
    }

    /** PUTCH(c, queue) */
    method Putch(c: SChar)
      requires Valid()
      modifies this`head, buf
      ensures Valid() && head == Mask(old(head) + 1) && buf[..] == old(buf[..])[old(head) := c]
      ensures Contents() == Put(old(Contents()), c)
    {
      RingPut(buf[..], head, tail, c);
      buf[head] := c;
      head := Mask(head + 1);
    }

    /** GETCH(queue, c): the character at the tail, which is the oldest one
        when the queue is not empty. */
    method Getch() returns (c: SChar)
      requires Valid()
      modifies this`tail
      ensures Valid() && c == buf[old(tail)] && tail == Mask(old(tail) + 1)
      ensures !old(Empty()) ==> old(Contents()) == [c] + Contents()
    {
      if head != tail {
        RingGet(buf[..], head, tail);
      }
      c := buf[tail];
      tail := Mask(tail + 1);
    }

    /** DEC(queue.head): the newest character is dropped. */
    method DecHead()
      requires Valid()
      modifies this`head
      ensures Valid() && head == Mask(old(head) - 1)
      ensures !old(Empty()) ==> Contents() == old(Contents())[..old(Chars()) - 1]
    {
      if head != tail {
        RingDec(buf[..], head, tail);
      }
      head := Mask(head - 1);
    }

    /** flush (kernel/chr_drv/tty_ioctl.c): the head is set to the tail. */
    method Flush()
      requires Valid()
      modifies this`head
      ensures Valid() && head == tail && Contents() == []
    {
      head := tail;
    }
  }

  /** CHARS + LEFT is 1023 whatever the indices; EMPTY is CHARS == 0 and
      FULL is CHARS == 1023. */
  lemma Room(q: Queue)
    requires q.Valid()
    ensures q.Chars() + q.Left() == CAPACITY
    ensures q.Empty() <==> q.Chars() == 0
    ensures q.Full() <==> q.Chars() == CAPACITY
  {
    Distance(q.head, q.tail);
  }

  /** LAST is the newest character. */
  lemma LastIsNewest(q: Queue)
    requires q.Valid() && !q.Empty()
    ensures q.Last() == q.Contents()[q.Chars() - 1]
  {
    RingDec(q.buf[..], q.head, q.tail);
  }
}
