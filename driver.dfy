/** What the block drivers (kernel/blk_drv/hd.c, floppy.c, ramdisk.c) see of
    the request list of their major through CURRENT: the pending requests in
    order, CURRENT first. end_request(uptodate) retires CURRENT with that
    outcome and moves CURRENT to the next request; the retired requests are
    kept, with their outcome, in the order they ended. What end_request does
    to the buffer head and the request slot is modelled by
    LlRwBlk.RequestQueue.EndRequest. */
module Driver {
  import opened Blk
  import opened FsDefs

  /** A request end_request retired, and whether it succeeded. */
  datatype Ended = Ended(req: Request, uptodate: bool)

  /** The 32-bit unsigned value of x, as the drivers' unsigned int and
      unsigned long arithmetic wraps. */
  function Unsigned(x: int): (r: int)
    ensures 0 <= r < 0x1_0000_0000
    ensures 0 <= x < 0x1_0000_0000 ==> r == x
    ensures -0x1_0000_0000 <= x < 0 ==> r == x + 0x1_0000_0000
  {
    x % 0x1_0000_0000
  }

  /** The outcomes in a list of retired requests. */
  predicate AllFailed(e: seq<Ended>)
  {
    forall k :: 0 <= k < |e| ==> !e[k].uptodate
  }

  lemma AllFailedAppend(e: seq<Ended>, r: Request)
    requires AllFailed(e)
    ensures AllFailed(e + [Ended(r, false)])
  {
    assert forall k :: 0 <= k < |e| ==> (e + [Ended(r, false)])[k] == e[k];
  }

  /** e extends e0 with retired requests that all failed. */
  predicate Extends(e0: seq<Ended>, e: seq<Ended>)
  {
    |e0| <= |e| && e[..|e0|] == e0 && AllFailed(e[|e0|..])
  }

  lemma ExtendsTrans(e0: seq<Ended>, e1: seq<Ended>, e2: seq<Ended>)
    requires Extends(e0, e1) && Extends(e1, e2)
    ensures Extends(e0, e2)
  {
    assert e2[..|e0|] == e1[..|e0|];
    forall k | 0 <= k < |e2| - |e0|
      ensures !e2[|e0|..][k].uptodate
    {
      if |e0| + k < |e1| {
        assert e2[|e0|..][k] == e1[|e0|..][k];
      } else {
        assert e2[|e0|..][k] == e2[|e1|..][|e0| + k - |e1|];
      }
    }
  }

  lemma ExtendsFail(e0: seq<Ended>, e: seq<Ended>, r: Request)
    requires Extends(e0, e)
    ensures Extends(e0, e + [Ended(r, false)])
  {
    assert (e + [Ended(r, false)])[|e0|..] == e[|e0|..] + [Ended(r, false)];
    AllFailedAppend(e[|e0|..], r);
  }

  /** The little-endian unsigned short at byte i. */
  function Le16(data: seq<Byte>, i: int): (r: int)
    requires 0 <= i && i + 2 <= |data|
    ensures 0 <= r < 0x1_0000
  {
    data[i] as int + 256 * data[i + 1] as int
  }

  /** The little-endian unsigned int at byte i. */
  function Le32(data: seq<Byte>, i: int): (r: int)
    requires 0 <= i && i + 4 <= |data|
    ensures 0 <= r < 0x1_0000_0000
  {
    Le16(data, i) + 0x1_0000 * Le16(data, i + 2)
  }
}
