/** The C bit operators the kernel applies to flags and modes, written out
    arithmetically. Bit k of an int is its two's-complement bit: Dafny's
    division by a positive divisor rounds down, which is exactly an
    arithmetic shift right. */
module Bits {

  function Pow2(k: nat): (r: nat)
    ensures r >= 1
  {
    if k == 0 then 1 else 2 * Pow2(k - 1)
  }

  /** (x >> k) & 1 */
  predicate Bit(x: int, k: nat)
    decreases k
  {
    if k == 0 then x % 2 == 1 else Bit(x / 2, k - 1)
  }

  /** x & y on non-negative values. */
  function And(x: nat, y: nat): (r: nat)
    ensures r <= x && r <= y
  {
    if x == 0 || y == 0 then 0
    else 2 * And(x / 2, y / 2) + (if x % 2 == 1 && y % 2 == 1 then 1 else 0)
  }

  /** x & ~y on non-negative values. */
  function AndNot(x: nat, y: nat): (r: nat)
    ensures r <= x
  {
    if x == 0 then 0
    else 2 * AndNot(x / 2, y / 2) + (if x % 2 == 1 && y % 2 == 0 then 1 else 0)
  }

  /** x | y on non-negative values. */
  function Or(x: nat, y: nat): (r: nat)
    ensures r >= x && r >= y
  {
    if x == 0 then y
    else if y == 0 then x
    else 2 * Or(x / 2, y / 2) + (if x % 2 == 1 || y % 2 == 1 then 1 else 0)
  }

  lemma {:induction false} BitOfZero(k: nat)
    ensures !Bit(0, k)
  {
    if k > 0 {
      BitOfZero(k - 1);
    }
  }

  /** Each bit of x & y is the conjunction of the operands' bits. */
  lemma {:induction false} AndBit(x: nat, y: nat, k: nat)
    ensures Bit(And(x, y), k) <==> Bit(x, k) && Bit(y, k)
  {
    if x == 0 || y == 0 {
      BitOfZero(k);
    } else if k > 0 {
      AndBit(x / 2, y / 2, k - 1);
    }
  }

  /** Each bit of x & ~y is x's bit where y's bit is clear. */
  lemma {:induction false} AndNotBit(x: nat, y: nat, k: nat)
    ensures Bit(AndNot(x, y), k) <==> Bit(x, k) && !Bit(y, k)
  {
    if x == 0 {
      BitOfZero(k);
    } else if k > 0 {
      AndNotBit(x / 2, y / 2, k - 1);
    }
  }

  /** Each bit of x | y is the disjunction of the operands' bits. */
  lemma {:induction false} OrBit(x: nat, y: nat, k: nat)
    ensures Bit(Or(x, y), k) <==> Bit(x, k) || Bit(y, k)
  {
    if x == 0 {
      BitOfZero(k);
    } else if y == 0 {
      BitOfZero(k);
    } else if k > 0 {
      OrBit(x / 2, y / 2, k - 1);
    }
  }

  /** A value below 2^n has no bit at position n or above. */
  lemma {:induction false} HighBitsClear(x: nat, n: nat, k: nat)
    requires x < Pow2(n) && n <= k
    ensures !Bit(x, k)
  {
    if k == 0 {
    } else if n == 0 {
      assert x == 0;
      BitOfZero(k);
    } else {
      HighBitsClear(x / 2, n - 1, k - 1);
    }
  }

  /** Two values below 2^n that agree on their n low bits are equal. */
  lemma {:induction false} SameBits(a: nat, b: nat, n: nat)
    requires a < Pow2(n) && b < Pow2(n)
    requires forall k :: 0 <= k < n ==> (Bit(a, k) <==> Bit(b, k))
    ensures a == b
  {
    if n > 0 {
      forall k | 0 <= k < n - 1
        ensures Bit(a / 2, k) <==> Bit(b / 2, k)
      {
        assert Bit(a, k + 1) <==> Bit(b, k + 1);
      }
      assert Bit(a, 0) <==> Bit(b, 0);
      SameBits(a / 2, b / 2, n - 1);
    }
  }

  /** x & m == m says that every bit of the mask m is set in x. */
  lemma HasAll(x: nat, m: nat, n: nat)
    requires m < Pow2(n)
    ensures And(x, m) == m <==> forall k :: 0 <= k < n && Bit(m, k) ==> Bit(x, k)
  {
    if forall k :: 0 <= k < n && Bit(m, k) ==> Bit(x, k) {
      forall k | 0 <= k < n
        ensures Bit(And(x, m), k) <==> Bit(m, k)
      {
        AndBit(x, m, k);
      }
      SameBits(And(x, m), m, n);
    } else {
      var k :| 0 <= k < n && Bit(m, k) && !Bit(x, k);
      AndBit(x, m, k);
    }
  }

  lemma Pow2Values()
    ensures Pow2(1) == 2 && Pow2(2) == 4 && Pow2(3) == 8 && Pow2(4) == 16
    ensures Pow2(8) == 256 && Pow2(9) == 512 && Pow2(16) == 0x1_0000
  {
    assert Pow2(4) == 16;
    assert Pow2(8) == 256;
    assert Pow2(9) == 512;
    assert Pow2(12) == 4096;
    assert Pow2(16) == 0x1_0000;
  }

  /** Adding a multiple of 2^n leaves the n low bits alone. */
  lemma {:induction false} BitAddMultiple(x: int, q: int, n: nat, k: nat)
    requires k < n
    ensures Bit(x + Pow2(n) * q, k) <==> Bit(x, k)
    decreases k
  {
    var t := Pow2(n - 1) * q;
    assert Pow2(n) * q == 2 * t;
    if k > 0 {
      assert (x + 2 * t) / 2 == x / 2 + t;
      BitAddMultiple(x / 2, q, n - 1, k - 1);
    }
  }

  /** x & (2^n - 1), which two's complement makes the Euclidean remainder,
      keeps exactly the n low bits of x. */
  lemma LowBits(x: int, n: nat, k: nat)
    requires k < n
    ensures Bit(x % Pow2(n), k) <==> Bit(x, k)
  {
    var p := Pow2(n);
    assert x % p + p * (x / p) == x;
    BitAddMultiple(x % p, x / p, n, k);
  }

  /** Bit k of x | 1 for an even x: bit 0 becomes set and no other bit moves. */
  lemma SetLowBit(x: int, k: nat)
    requires x % 2 == 0
    ensures Bit(x + 1, k) <==> k == 0 || Bit(x, k)
  {
    if k > 0 {
      assert (x + 1) / 2 == x / 2;
    }
  }

  /** The quotient is the q of any x == m * q + r with 0 <= r < m. */
  lemma DivIs(x: int, m: int, q: int, r: int)
    requires m >= 1 && x == m * q + r && 0 <= r < m
    ensures x / m == q
  {
    var q' := x / m;
    var r' := x % m;
    assert x == m * q' + r';
    var d := q - q';
    assert m * d == r' - r;
    if d >= 1 {
      MulAtLeast(m, d);
    } else if d <= -1 {
      MulAtLeast(m, -d);
    }
  }

  lemma MulAtLeast(m: int, d: int)
    requires m >= 1 && d >= 1
    ensures m * d >= m
  {
  }

  /** Halving and then dividing by m is dividing by 2m. */
  lemma DivTwice(x: int, m: int)
    requires m >= 1
    ensures x / 2 / m == x / (2 * m)
  {
    var q := x / (2 * m);
    var r := x % (2 * m);
    assert x == (2 * m) * q + r;
    DivIs(x, 2, m * q + r / 2, r % 2);
    DivIs(m * q + r / 2, m, q, r / 2);
  }

  /** x >> n, which for a positive power of two is Dafny's division, moves
      bit k + n down to bit k. */
  lemma {:induction false} ShiftBit(x: int, n: nat, k: nat)
    ensures Bit(x / Pow2(n), k) <==> Bit(x, k + n)
    decreases n
  {
    if n > 0 {
      ShiftBit(x / 2, n - 1, k);
      DivTwice(x, Pow2(n - 1));
    }
  }

  /** The only bit of 1 << n is bit n. */
  lemma {:induction false} PowBit(n: nat, k: nat)
    ensures Bit(Pow2(n), k) <==> k == n
  {
    if n == 0 {
      if k > 0 {
        BitOfZero(k - 1);
      }
    } else if k == 0 {
    } else {
      PowBit(n - 1, k - 1);
    }
  }

  /** A value is nonzero exactly when one of its bits is set. */
  lemma {:induction false} NonzeroBit(x: nat)
    ensures x != 0 <==> exists k: nat :: Bit(x, k)
  {
    if x == 0 {
      forall k: nat
        ensures !Bit(x, k)
      {
        BitOfZero(k);
      }
    } else if x % 2 == 0 {
      assert x / 2 != 0;
      NonzeroBit(x / 2);
      var k: nat :| Bit(x / 2, k);
      var k1: nat := k + 1;
      assert Bit(x / 2, k1 - 1);
      assert Bit(x, k1);
      assert exists j: nat :: Bit(x, j);
    } else {
      var k0: nat := 0;
      assert Bit(x, k0);
      assert exists j: nat :: Bit(x, j);
    }
  }

  /** x | y stays below 2^n when both operands do. */
  lemma {:induction false} OrBound(x: nat, y: nat, n: nat)
    requires x < Pow2(n) && y < Pow2(n)
    ensures Or(x, y) < Pow2(n)
  {
    if x != 0 && y != 0 {
      OrBound(x / 2, y / 2, n - 1);
    }
  }
}
