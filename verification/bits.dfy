/** Python's integer bit operations, as the engine uses them.

    Python's `^` and `&` act on unbounded integers in two's complement: a negative
    number behaves as if it had infinitely many leading one bits.  `Xor` and `And`
    below are those operators, defined bit by bit from the low end, so that the
    model reproduces what `b ^ (a - 1)` and `(i ^ (i - 1)) & 0xff` compute when
    `a` or `i` is zero. */
module Bits {

  /** A value of a Python `bytearray` slot. */
  type Byte = b: int | 0 <= b < 256

  /** Number of significant bits' worth of magnitude: `x` for a non-negative
      number, `~x` for a negative one.  Halving shrinks it. */
  function Size(x: int): nat
  {
    if x >= 0 then x else -x - 1
  }

  /** The two integers whose binary expansion is a single repeated bit. */
  predicate IsSignOnly(x: int)
  {
    x == 0 || x == -1
  }

  lemma HalfShrinks(x: int)
    ensures Size(x / 2) <= Size(x)
    ensures !IsSignOnly(x) ==> Size(x / 2) < Size(x)
  {
  }

  function Pow2(n: nat): (r: nat)
    ensures r >= 1
  {
    if n == 0 then 1 else 2 * Pow2(n - 1)
  }

  /** Python's `x ^ y` on unbounded integers. */
  function Xor(x: int, y: int): int
    decreases Size(x) + Size(y)
  {
    if IsSignOnly(x) && IsSignOnly(y) then
      (if x == y then 0 else -1)
    else
      HalfShrinks(x);
      HalfShrinks(y);
      2 * Xor(x / 2, y / 2) + (if x % 2 == y % 2 then 0 else 1)
  }

  /** Python's `x & y` on unbounded integers. */
  function And(x: int, y: int): int
    decreases Size(x) + Size(y)
  {
    if IsSignOnly(x) && IsSignOnly(y) then
      (if x == -1 && y == -1 then -1 else 0)
    else
      HalfShrinks(x);
      HalfShrinks(y);
      2 * And(x / 2, y / 2) + (if x % 2 == 1 && y % 2 == 1 then 1 else 0)
  }

  /** Splitting off the lowest bit: `x` is twice its floored half plus its low bit. */
  lemma HalfAndLowBit(x: int)
    ensures x == 2 * (x / 2) + x % 2
    ensures 0 <= x % 2 < 2
  {
  }

  /** Both `Xor` and `And` can be unfolded one bit at a time, also when both
      arguments are sign-only (the halves are then the arguments themselves). */
  lemma XorStep(x: int, y: int)
    ensures Xor(x, y) == 2 * Xor(x / 2, y / 2) + (if x % 2 == y % 2 then 0 else 1)
  {
    if IsSignOnly(x) && IsSignOnly(y) {
      assert x / 2 == x && y / 2 == y;
    }
  }

  lemma AndStep(x: int, y: int)
    ensures And(x, y) == 2 * And(x / 2, y / 2) + (if x % 2 == 1 && y % 2 == 1 then 1 else 0)
  {
    if IsSignOnly(x) && IsSignOnly(y) {
      assert x / 2 == x && y / 2 == y;
    }
  }

  /** `x ^ -1` is the bitwise complement `-x - 1`; the engine hits this whenever
      it computes `b ^ (a - 1)` with `a == 0`. */
  lemma {:induction false} XorMinusOne(x: int)
    ensures Xor(x, -1) == -x - 1
    decreases Size(x)
  {
    if !IsSignOnly(x) {
      HalfShrinks(x);
      XorMinusOne(x / 2);
      HalfAndLowBit(x);
    }
  }

  /** XOR of two numbers below 2^n stays below 2^n (and non-negative). */
  lemma {:induction false} XorBelowPow2(x: int, y: int, n: nat)
    requires 0 <= x < Pow2(n) && 0 <= y < Pow2(n)
    ensures 0 <= Xor(x, y) < Pow2(n)
  {
    if n == 0 {
      assert x == 0 && y == 0;
    } else if !(IsSignOnly(x) && IsSignOnly(y)) {
      XorBelowPow2(x / 2, y / 2, n - 1);
    }
  }

  /** XOR with the same value twice is the identity. */
  lemma {:induction false} XorInvolution(x: int, y: int)
    ensures Xor(Xor(x, y), y) == x
    decreases Size(x) + Size(y)
  {
    var z := Xor(x, y);
    if IsSignOnly(x) && IsSignOnly(y) {
    } else {
      HalfShrinks(x);
      HalfShrinks(y);
      XorInvolution(x / 2, y / 2);
      HalfAndLowBit(x);
      HalfAndLowBit(y);
      assert z / 2 == Xor(x / 2, y / 2);
      assert z % 2 == (if x % 2 == y % 2 then 0 else 1);
      XorStep(z, y);
    }
  }

  lemma {:induction false} AndZero(x: int)
    ensures And(x, 0) == 0
    decreases Size(x)
  {
    if !IsSignOnly(x) {
      HalfShrinks(x);
      AndZero(x / 2);
    }
  }

  /** Masking with 2^n - 1 keeps the low n bits: Python's `x & (2**n - 1)` is the
      floored remainder `x % 2**n`, also for negative `x`. */
  lemma {:induction false} AndLowMask(x: int, n: nat)
    ensures And(x, Pow2(n) - 1) == x % Pow2(n)
    decreases n
  {
    if n == 0 {
      AndZero(x);
    } else {
      var m := Pow2(n - 1);
      AndLowMask(x / 2, n - 1);
      AndStep(x, 2 * m - 1);
      assert (2 * m - 1) / 2 == m - 1;
      assert (2 * m - 1) % 2 == 1;
      ModOfDouble(x, m);
    }
  }

  /** x mod 2m is twice (x div 2 mod m) plus the low bit of x. */
  lemma ModOfDouble(x: int, m: nat)
    requires m >= 1
    ensures x % (2 * m) == 2 * ((x / 2) % m) + x % 2
  {
    var h, b := x / 2, x % 2;
    var q, r := h / m, h % m;
    assert x == 2 * h + b;
    assert h == m * q + r;
    assert x == (2 * m) * q + (2 * r + b);
    assert 0 <= 2 * r + b < 2 * m;
    ModUnique(x, 2 * m, q, 2 * r + b);
  }

  /** The Euclidean quotient and remainder are unique. */
  lemma ModUnique(n: int, d: int, q: int, r: int)
    requires d > 0 && n == d * q + r && 0 <= r < d
    ensures n / d == q && n % d == r
  {
    var q', r' := n / d, n % d;
    assert d * q + r == d * q' + r';
    if q' < q {
      assert d * (q - q') == r' - r;
      MulAtLeast(d, q - q');
    } else if q' > q {
      assert d * (q' - q) == r - r';
      MulAtLeast(d, q' - q);
    }
  }

  lemma MulAtLeast(d: int, k: int)
    requires d > 0 && k >= 1
    ensures d * k >= d
  {
  }

  /** Python's `x & 0xff`: the low byte of any integer. */
  function Low8(x: int): (r: Byte)
    ensures r == x % 256
  {
    AndLowMask(x, 8);
    And(x, 255)
  }

  /** Python's `x ^ y` on two bytes, which is again a byte. */
  function XorByte(x: Byte, y: Byte): (r: Byte)
    ensures Xor(r, y) == x
  {
    XorBelowPow2(x, y, 8);
    XorInvolution(x, y);
    Xor(x, y)
  }
}
