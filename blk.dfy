/** The request record, the device table entry and the elevator order of
    kernel/blk_drv/blk.h, with the insertion rule used by add_request stated
    on values so that the request queue can be specified by it. */
module Blk {

  const NR_BLK_DEV: int := 7
  const NR_REQUEST: int := 32

  /** struct request. `buffer` is the data address, `bh` the buffer index
      (-1 = NULL) and `next` the index of the next request (-1 = NULL). The
      waiting-task field is not modelled. */
  datatype Request = Request(dev: int, cmd: int, errors: int, sector: int,
                             nrSectors: int, buffer: int, bh: int, next: int)

  /** A slot as blk_dev_init leaves it: dev = -1, next = NULL, the rest zero. */
  const FreeSlot: Request := Request(-1, 0, 0, 0, 0, 0, -1, -1)

  /** struct blk_dev_struct: whether a request function is registered, and the
      index of the current request (-1 = NULL). */
  datatype BlkDev = BlkDev(hasRequestFn: bool, current: int)

  /** IN_ORDER(s1, s2): reads before writes, then by device, then by sector. */
  predicate InOrder(s1: Request, s2: Request)
  {
    s1.cmd < s2.cmd ||
    (s1.cmd == s2.cmd && (s1.dev < s2.dev || (s1.dev == s2.dev && s1.sector < s2.sector)))
  }

  /** The triple IN_ORDER compares. */
  function Key(r: Request): (int, int, int)
  {
    (r.cmd, r.dev, r.sector)
  }

  lemma InOrderIsStrictOrder(a: Request, b: Request, c: Request)
    ensures !InOrder(a, a)
    ensures InOrder(a, b) ==> !InOrder(b, a)
    ensures InOrder(a, b) && InOrder(b, c) ==> InOrder(a, c)
    ensures Key(a) != Key(b) ==> InOrder(a, b) || InOrder(b, a)
  {
  }

  /** A read (command 0) is ordered before every write (command 1). */
  lemma ReadsBeforeWrites(r: Request, w: Request)
    requires r.cmd == 0 && w.cmd == 1
    ensures InOrder(r, w) && !InOrder(w, r)
  {
  }

  /** The test add_request applies to the pair (tmp, tmp->next). */
  predicate InsertHere(tmp: Request, nxt: Request, req: Request)
  {
    (InOrder(tmp, req) || !InOrder(tmp, nxt)) && InOrder(req, nxt)
  }

  /** Index of the request after which add_request splices `req`, scanning a
      non-empty list from position i: the first tmp whose successor passes
      InsertHere, or the last element. */
  function InsertPos(q: seq<Request>, req: Request, i: nat): (k: nat)
    requires i < |q|
    ensures i <= k < |q|
    ensures k + 1 < |q| ==> InsertHere(q[k], q[k + 1], req)
    ensures forall j :: i <= j < k ==> !InsertHere(q[j], q[j + 1], req)
    decreases |q| - i
  {
    if i + 1 == |q| then i
    else if InsertHere(q[i], q[i + 1], req) then i
    else InsertPos(q, req, i + 1)
  }

  /** The list after add_request: `req` spliced in after position InsertPos. */
  function Inserted(q: seq<Request>, req: Request): (r: seq<Request>)
    requires |q| > 0
    ensures |r| == |q| + 1
    ensures r[0] == q[0]
    ensures multiset(r) == multiset(q) + multiset{req}
  {
    var k := InsertPos(q, req, 0);
    assert q == q[..k + 1] + q[k + 1..];
    q[..k + 1] + [req] + q[k + 1..]
  }

  predicate Sorted(q: seq<Request>)
  {
    forall i :: 0 <= i < |q| - 1 ==> InOrder(q[i], q[i + 1])
  }

  lemma {:induction false} BelowInsertPoint(q: seq<Request>, req: Request, j: nat)
    requires |q| > 0 && Sorted(q) && InOrder(q[0], req)
    requires forall i :: 0 <= i < |q| ==> Key(q[i]) != Key(req)
    requires j <= InsertPos(q, req, 0)
    ensures InOrder(q[j], req)
    decreases j
  {
    if j > 0 {
      BelowInsertPoint(q, req, j - 1);
      assert !InsertHere(q[j - 1], q[j], req);
      InOrderIsStrictOrder(q[j], req, req);
    }
  }

  /** Elevator, sorted case only: on a list sorted by IN_ORDER whose head
      precedes the new request, and with no request of the same key,
      insertion keeps the list sorted. A queue the elevator has already
      wrapped around (two ascending runs, as ElevatorExample3 shows) is
      covered by ElevatorKeepsSweep. */
  lemma ElevatorKeepsSorted(q: seq<Request>, req: Request)
    requires |q| > 0 && Sorted(q) && InOrder(q[0], req)
    requires forall i :: 0 <= i < |q| ==> Key(q[i]) != Key(req)
    ensures Sorted(Inserted(q, req))
  {
    var k := InsertPos(q, req, 0);
    BelowInsertPoint(q, req, k);
    var r := Inserted(q, req);
    assert r == q[..k + 1] + [req] + q[k + 1..];
    forall i | 0 <= i < |r| - 1
      ensures InOrder(r[i], r[i + 1])
    {
      if i < k {
        assert r[i] == q[i] && r[i + 1] == q[i + 1];
      } else if i == k {
        assert r[i] == q[k] && r[i + 1] == req;
      } else if i == k + 1 {
        assert r[i] == req && r[i + 1] == q[k + 1];
      } else {
        assert r[i] == q[i - 1] && r[i + 1] == q[i];
      }
    }
  }

  /** The pair at i is out of IN_ORDER: the point where the sweep wraps
      around to the lowest (cmd, dev, sector) again. */
  predicate Descent(q: seq<Request>, i: int)
  {
    0 <= i < |q| - 1 && !InOrder(q[i], q[i + 1])
  }

  /** The elevator's sweep order: one ascending run, or two when the sweep
      has wrapped around, so at most one descent. */
  predicate SweepOrder(q: seq<Request>)
  {
    forall i, j :: 0 <= i < |q| && 0 <= j < |q| && Descent(q, i) && Descent(q, j) ==> i == j
  }

  /** Past the descent the scan only moves on while the request is above
      each entry, so every entry it passed there precedes the request. */
  lemma {:induction false} PastDescent(q: seq<Request>, req: Request, d: int, j: int)
    requires |q| > 0 && SweepOrder(q) && Descent(q, d)
    requires forall i :: 0 <= i < |q| ==> Key(q[i]) != Key(req)
    requires d < j <= InsertPos(q, req, 0)
    ensures InOrder(q[j], req)
    decreases j
  {
    assert !InsertHere(q[j - 1], q[j], req);
    if j > d + 1 {
      PastDescent(q, req, d, j - 1);
      assert !Descent(q, j - 1);
    }
    InOrderIsStrictOrder(q[j], req, req);
  }

  /** Where a descent of the spliced list comes from: one of the original
      list at the same place (before the splice) or one place back (after
      it); a descent into the new request replaces the one it was put into,
      and when it lands at the tail the original list had none. */
  lemma DescentSource(q: seq<Request>, req: Request, i: int)
    requires |q| > 0 && SweepOrder(q)
    requires forall i :: 0 <= i < |q| ==> Key(q[i]) != Key(req)
    requires Descent(Inserted(q, req), i)
    ensures var k := InsertPos(q, req, 0);
            if i < k then Descent(q, i)
            else if i == k then
              (k + 1 < |q| ==> Descent(q, k)) && (k + 1 == |q| ==> forall d :: !Descent(q, d))
            else i > k + 1 && Descent(q, i - 1)
  {
    var k := InsertPos(q, req, 0);
    var r := Inserted(q, req);
    assert r == q[..k + 1] + [req] + q[k + 1..];
    if i < k {
      assert r[i] == q[i] && r[i + 1] == q[i + 1];
    } else if i == k {
      assert r[i] == q[k] && r[i + 1] == req;
      if k + 1 == |q| {
        forall d | Descent(q, d)
          ensures false
        {
          PastDescent(q, req, d, k);
        }
      }
    } else if i == k + 1 {
      // (req, tmp->next) passed InsertHere, so it is in order
      assert false;
    } else {
      assert r[i] == q[i - 1] && r[i + 1] == q[i];
    }
  }

  /** add_request keeps the sweep order, with or without a wrap-around in
      the list, given that no two requests share a (cmd, dev, sector) key
      (each request holds a locked buffer of its own). */
  lemma ElevatorKeepsSweep(q: seq<Request>, req: Request)
    requires |q| > 0 && SweepOrder(q)
    requires forall i :: 0 <= i < |q| ==> Key(q[i]) != Key(req)
    ensures SweepOrder(Inserted(q, req))
  {
    var r := Inserted(q, req);
    forall i, j | Descent(r, i) && Descent(r, j)
      ensures i == j
    {
      DescentSource(q, req, i);
      DescentSource(q, req, j);
    }
  }

  /** A read is never spliced in front of the request the list starts with. */
  lemma InsertedAfterHead(q: seq<Request>, req: Request)
    requires |q| > 0
    ensures Inserted(q, req)[0] == q[0]
    ensures Inserted(q, req)[InsertPos(q, req, 0) + 1] == req
  {
  }

  function WriteReq(dev: int, block: int): Request
  {
    Request(dev, 1, 0, 2 * block, 2, 0, 0, -1)
  }

  function ReadReq(dev: int, block: int): Request
  {
    Request(dev, 0, 0, 2 * block, 2, 0, 0, -1)
  }

  /** Writes of blocks 50, 10 and 30 followed by a read of block 20 on one
      device (ElevatorExample1..3): the first write is current; the later
      writes go to the tail in submission order, and the read is placed
      straight after the current request, ahead of both queued writes. */
  lemma ElevatorExample1(d: int)
    ensures Inserted([WriteReq(d, 50)], WriteReq(d, 10)) == [WriteReq(d, 50), WriteReq(d, 10)]
  {
    var q := [WriteReq(d, 50)];
    assert InsertPos(q, WriteReq(d, 10), 0) == 0;
    assert q[..1] == q && q[1..] == [];
  }

  lemma ElevatorExample2(d: int)
    ensures Inserted([WriteReq(d, 50), WriteReq(d, 10)], WriteReq(d, 30))
            == [WriteReq(d, 50), WriteReq(d, 10), WriteReq(d, 30)]
  {
    var q := [WriteReq(d, 50), WriteReq(d, 10)];
    assert !InsertHere(q[0], q[1], WriteReq(d, 30));
    assert InsertPos(q, WriteReq(d, 30), 0) == 1;
    assert q[..2] == q && q[2..] == [];
  }

  lemma ElevatorExample3(d: int)
    ensures Inserted([WriteReq(d, 50), WriteReq(d, 10), WriteReq(d, 30)], ReadReq(d, 20))
            == [WriteReq(d, 50), ReadReq(d, 20), WriteReq(d, 10), WriteReq(d, 30)]
  {
    var q := [WriteReq(d, 50), WriteReq(d, 10), WriteReq(d, 30)];
    assert InsertHere(q[0], q[1], ReadReq(d, 20));
    assert InsertPos(q, ReadReq(d, 20), 0) == 0;
    assert q[..1] == [WriteReq(d, 50)] && q[1..] == [WriteReq(d, 10), WriteReq(d, 30)];
  }

  /** The scan is one-directional: a read below the current position waits for
      the next sweep, behind writes already queued. */
  lemma ElevatorSweepExample(d: int)
    ensures Inserted([ReadReq(d, 4), ReadReq(d, 5), WriteReq(d, 1)], ReadReq(d, 3))
            == [ReadReq(d, 4), ReadReq(d, 5), WriteReq(d, 1), ReadReq(d, 3)]
  {
    var q := [ReadReq(d, 4), ReadReq(d, 5), WriteReq(d, 1)];
    assert !InsertHere(q[0], q[1], ReadReq(d, 3));
    assert !InsertHere(q[1], q[2], ReadReq(d, 3));
    assert InsertPos(q, ReadReq(d, 3), 0) == 2;
    assert q[..3] == q && q[3..] == [];
  }
}
