/**
 Bit-level view of the fixed-width unsigned elements.

 An element of a `W`-bit unsigned type is a natural number below `Pow2(W)`.
 The sort reads one bit at a time with `(x >> bit) & 1`. On naturals a right
 shift by `n` is `n` halvings, and `& 1` is the remainder modulo 2.
 `High(x, b)` is the number formed by the bits of `x` strictly above position
 `b` (`x >> (b + 1)`); it is the quantity every element of a range agrees on
 while that range is handled at bit `b`.
 */
module Bits {

  /** 2 to the power `n`. */
  function Pow2(n: nat): (r: nat)
    ensures r >= 1
  {
    if n == 0 then 1 else 2 * Pow2(n - 1)
  }

  /** Unsigned right shift: `x >> n`. */
  function Shr(x: nat, n: nat): nat
  {
    if n == 0 then x else Shr(x, n - 1) / 2
  }

  /** The bit at position `b` of `x`: `(x >> b) & 1`. */
  function Bit(x: nat, b: nat): (r: nat)
    ensures r == 0 || r == 1
  {
    Shr(x, b) % 2
  }

  /** The bits of `x` strictly above position `b`: `x >> (b + 1)`. */
  function High(x: nat, b: int): nat
    requires b >= -1
  {
    Shr(x, b + 1)
  }

  /** Multiplying by a natural number is monotone. */
  lemma MulMonotone(a: int, b: int, d: nat)
    requires a <= b
    ensures a * d <= b * d
  {
  }

  /** Division has a unique quotient for a remainder in `[0, d)`. */
  lemma DivUnique(x: int, d: int, q: int, r: int)
    requires d > 0 && 0 <= r < d && x == q * d + r
    ensures x / d == q
  {
    var q', r' := x / d, x % d;
    assert x == q' * d + r';
    if q' < q {
      MulMonotone(q' + 1, q, d);
    } else if q' > q {
      MulMonotone(q + 1, q', d);
    }
  }

  /** Dividing by `2 * p` is dividing by `p` and then by 2. */
  lemma DivTwice(x: nat, p: nat)
    requires p > 0
    ensures x / (2 * p) == (x / p) / 2
  {
    var q, r := x / p, x % p;
    assert x == q * p + r;
    var q2, r2 := q / 2, q % 2;
    assert q * p == (2 * q2 + r2) * p == q2 * (2 * p) + r2 * p;
    DivUnique(x, 2 * p, q2, r2 * p + r);
  }

  /** A right shift by `n` is division by `2^n`, so `Bit(x, b)` is `(x / 2^b) % 2`. */
  lemma {:induction false} ShrIsDiv(x: nat, n: nat)
    ensures Shr(x, n) == x / Pow2(n)
    ensures Bit(x, n) == (x / Pow2(n)) % 2
  {
    if n > 0 {
      ShrIsDiv(x, n - 1);
      DivTwice(x, Pow2(n - 1));
    }
  }

  /** Shifting is monotone: `x <= y` implies `x >> n <= y >> n`. */
  lemma {:induction false} ShrMonotone(x: nat, y: nat, n: nat)
    requires x <= y
    ensures Shr(x, n) <= Shr(y, n)
  {
    if n > 0 {
      ShrMonotone(x, y, n - 1);
    }
  }

  /** A value below `2^(n+k)` shifted right by `n` is below `2^k`. */
  lemma {:induction false} ShrBound(x: nat, n: nat, k: nat)
    requires x < Pow2(n + k)
    ensures Shr(x, n) < Pow2(k)
  {
    if n > 0 {
      ShrBound(x, n - 1, k + 1);
    }
  }

  /**
   The bits above `b - 1` are the bits above `b` followed by bit `b`:
   `x >> b == 2 * (x >> (b + 1)) + ((x >> b) & 1)`.
   */
  lemma HighStep(x: nat, b: nat)
    ensures High(x, b - 1) == 2 * High(x, b) + Bit(x, b)
  {
  }

  /** With no bit left to drop, `High` is the value itself. */
  lemma HighOfNone(x: nat)
    ensures High(x, -1) == x
  {
  }

  /** A value of `w` bits has nothing above bit `w - 1`. */
  lemma {:induction false} HighOfTop(x: nat, w: nat)
    requires x < Pow2(w)
    ensures High(x, w - 1) == 0
  {
    ShrBound(x, w, 0);
  }

  /** Comparing the high bits decides the order of the values. */
  lemma {:induction false} HighOrder(x: nat, y: nat, b: int)
    requires b >= -1
    requires High(x, b) < High(y, b)
    ensures x < y
  {
    if y <= x {
      ShrMonotone(y, x, b + 1);
    }
  }

  /**
   Two values with the same bits above `b` are ordered by bit `b`: the one
   with bit `b` clear is strictly smaller.
   */
  lemma {:induction false} BitOrder(x: nat, y: nat, b: nat)
    requires High(x, b) == High(y, b)
    requires Bit(x, b) == 0 && Bit(y, b) == 1
    ensures x < y
  {
    HighStep(x, b);
    HighStep(y, b);
    HighOrder(x, y, b - 1);
  }
}
