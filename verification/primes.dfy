/** Reference definitions for the prime sequences the engine draws on:
    primality, the primes below a bound, and the first n primes. */
module PrimeNumbers {
  import Bits

  predicate Divides(d: nat, n: nat)
  {
    d > 0 && n % d == 0
  }

  predicate IsPrime(n: nat)
  {
    n >= 2 && forall d :: 2 <= d < n ==> !Divides(d, n)
  }

  function Max(a: int, b: int): int
  {
    if a >= b then a else b
  }

  // ---------------------------------------------------------------------------
  // Divisibility facts

  lemma DividesMultiple(d: nat, k: nat)
    requires d > 0
    ensures Divides(d, d * k)
  {
    Bits.ModUnique(d * k, d, k, 0);
  }

  /** A divisor gives the exact quotient. */
  lemma DividesQuotient(d: nat, n: nat)
    requires Divides(d, n)
    ensures n == d * (n / d)
  {
  }

  lemma DividesTransitive(a: nat, b: nat, c: nat)
    requires Divides(a, b) && Divides(b, c)
    ensures Divides(a, c)
  {
    var k, j := b / a, c / b;
    assert c == a * (k * j);
    DividesMultiple(a, k * j);
  }

  lemma DividesSum(d: nat, x: nat, y: nat)
    requires Divides(d, x) && Divides(d, y)
    ensures Divides(d, x + y)
  {
    var k, j := x / d, y / d;
    assert x + y == d * (k + j);
    DividesMultiple(d, k + j);
  }

  lemma DividesDifference(d: nat, x: nat, y: nat)
    requires Divides(d, x) && Divides(d, y) && y <= x
    ensures Divides(d, x - y)
  {
    var k, j := x / d, y / d;
    assert x - y == d * (k - j);
    DividesMultiple(d, k - j);
  }

  lemma DividesProduct(d: nat, x: nat, t: nat)
    requires Divides(d, x)
    ensures Divides(d, x * t) && Divides(d, t * x)
  {
    var k := x / d;
    assert x * t == d * (k * t);
    DividesMultiple(d, k * t);
  }

  /** A positive multiple of d is at least d. */
  lemma DivisorAtMost(d: nat, n: nat)
    requires Divides(d, n) && n > 0
    ensures d <= n
  {
    var k := n / d;
    assert n == d * k;
    Bits.MulAtLeast(d, k);
  }

  lemma MulMonotone(a: nat, b: nat, c: nat)
    requires b <= c
    ensures a * b <= a * c
  {
  }

  // ---------------------------------------------------------------------------
  // Smallest divisors and prime factors

  /** The least divisor of n that is at least d. */
  function MinDivisorFrom(n: nat, d: nat): (r: nat)
    requires 2 <= d <= n
    ensures d <= r <= n && Divides(r, n)
    ensures forall e :: d <= e < r ==> !Divides(e, n)
    decreases n - d
  {
    if n % d == 0 then d else MinDivisorFrom(n, d + 1)
  }

  /** The least divisor above 1 of a number is prime. */
  lemma MinDivisorIsPrime(n: nat)
    requires n >= 2
    ensures IsPrime(MinDivisorFrom(n, 2))
  {
    var r := MinDivisorFrom(n, 2);
    forall d | 2 <= d < r
      ensures !Divides(d, r)
    {
      if Divides(d, r) {
        DividesTransitive(d, r, n);
      }
    }
  }

  /** A composite number n >= 2 has a prime factor p with p * p <= n. */
  lemma SmallPrimeFactor(n: nat) returns (p: nat)
    requires n >= 2 && !IsPrime(n)
    ensures IsPrime(p) && Divides(p, n) && p * p <= n && p < n
  {
    p := MinDivisorFrom(n, 2);
    MinDivisorIsPrime(n);
    var d :| 2 <= d < n && Divides(d, n);
    assert p <= d;
    var e := n / p;
    DividesQuotient(p, n);
    assert n == p * e;
    if e <= 1 {
      MulMonotone(p, e, 1);
    }
    assert n == e * p;
    DividesMultiple(e, p);
    assert e >= p;
    MulMonotone(p, p, e);
  }

  /** Primes from 5 on are of the form 6k+1 or 6k+5. */
  predicate Wheel(n: nat)
  {
    n % 6 == 1 || n % 6 == 5
  }

  lemma NotWheelNotPrime(n: nat)
    requires n >= 4 && !Wheel(n)
    ensures !IsPrime(n)
  {
    if n % 2 == 0 {
      assert Divides(2, n);
    } else {
      assert n % 3 == 0;
      assert Divides(3, n);
    }
  }

  lemma PrimeIsWheel(p: nat)
    requires IsPrime(p) && p >= 5
    ensures Wheel(p)
  {
    if !Wheel(p) {
      NotWheelNotPrime(p);
    }
  }

  /** A wheel number has no factor 2 or 3. */
  lemma WheelCoprimeSix(n: nat)
    requires Wheel(n)
    ensures !Divides(2, n) && !Divides(3, n)
  {
  }

  /** Euclid's lemma, for the case the sieve needs. */
  lemma {:induction false} PrimeDividesFactor(p: nat, r: nat, b: nat)
    requires IsPrime(p) && 1 <= r < p && Divides(p, r * b)
    ensures Divides(p, b)
    decreases r
  {
    if r > 1 {
      var t, s := p / r, p % r;
      assert p == r * t + s;
      if s == 0 {
        assert Divides(r, p);
        assert false;
      }
      // s * b == p * b - t * (r * b), and p divides both terms.
      DividesMultiple(p, b);
      DividesProduct(p, r * b, t);
      assert p * b == (r * t) * b + s * b;
      assert (r * t) * b == t * (r * b);
      DividesDifference(p, p * b, t * (r * b));
      assert p * b - t * (r * b) == s * b;
      PrimeDividesFactor(p, s, b);
    }
  }

  lemma EuclidLemma(p: nat, a: nat, b: nat)
    requires IsPrime(p) && Divides(p, a * b)
    ensures Divides(p, a) || Divides(p, b)
  {
    var q, r := a / p, a % p;
    assert a == p * q + r;
    if r != 0 {
      assert a * b == p * (q * b) + r * b;
      DividesMultiple(p, q * b);
      DividesDifference(p, a * b, p * (q * b));
      assert a * b - p * (q * b) == r * b;
      PrimeDividesFactor(p, r, b);
    }
  }

  /** The square of a prime has no prime factor other than that prime. */
  lemma SquareOfPrimeFactors(p: nat, c: nat)
    requires IsPrime(p) && IsPrime(c) && Divides(p, c * c)
    ensures p == c
  {
    EuclidLemma(p, c, c);
    assert Divides(p, c);
    if p != c {
      DivisorAtMost(p, c);
      assert false;
    }
  }

  // ---------------------------------------------------------------------------
  // There is always a next prime

  function Fact(n: nat): (r: nat)
    ensures r >= 1
  {
    if n == 0 then 1 else n * Fact(n - 1)
  }

  lemma {:induction false} FactDivisible(n: nat, d: nat)
    requires 1 <= d <= n
    ensures Divides(d, Fact(n))
  {
    if d == n {
      DividesMultiple(n, Fact(n - 1));
    } else {
      FactDivisible(n - 1, d);
      DividesProduct(d, Fact(n - 1), n);
    }
  }

  /** Euclid: the least prime factor of n! + 1 exceeds n. */
  lemma PrimeAbove(n: nat)
    ensures IsPrime(MinDivisorFrom(Fact(n) + 1, 2))
    ensures MinDivisorFrom(Fact(n) + 1, 2) > n
  {
    var f := Fact(n) + 1;
    var q := MinDivisorFrom(f, 2);
    MinDivisorIsPrime(f);
    if q <= n {
      FactDivisible(n, q);
      assert f - Fact(n) == 1;
      DividesDifference(q, f, Fact(n));
      assert false;
    }
  }

  /** The least prime in [c, bound], bound itself being prime. */
  function PrimeSearch(c: nat, bound: nat): (p: nat)
    requires c <= bound && IsPrime(bound)
    ensures c <= p <= bound && IsPrime(p)
    ensures forall q :: c <= q < p ==> !IsPrime(q)
    decreases bound - c
  {
    if IsPrime(c) then c else PrimeSearch(c + 1, bound)
  }

  /** The least prime above n. */
  ghost function NextPrime(n: nat): (p: nat)
    ensures n < p && IsPrime(p)
    ensures forall q :: n < q < p ==> !IsPrime(q)
  {
    PrimeAbove(n);
    PrimeSearch(n + 1, MinDivisorFrom(Fact(n) + 1, 2))
  }

  // ---------------------------------------------------------------------------
  // The two prime sequences

  /** All primes strictly below k, in increasing order. */
  ghost function PrimesBelow(k: int): (r: seq<nat>)
    decreases if k < 0 then 0 else k
  {
    if k <= 2 then [] else PrimesBelow(k - 1) + (if IsPrime(k - 1) then [k - 1] else [])
  }

  /** PrimesBelow(k) holds exactly the primes below k, in increasing order. */
  lemma {:induction false} PrimesBelowSpec(k: int)
    ensures forall i, j :: 0 <= i < j < |PrimesBelow(k)| ==> PrimesBelow(k)[i] < PrimesBelow(k)[j]
    ensures forall q: nat :: q in PrimesBelow(k) <==> IsPrime(q) && q < k
    decreases if k < 0 then 0 else k
  {
    if k > 2 {
      PrimesBelowSpec(k - 1);
      var r := PrimesBelow(k - 1);
      var t := PrimesBelow(k);
      assert t == r + (if IsPrime(k - 1) then [k - 1] else []);
      forall i, j | 0 <= i < j < |t|
        ensures t[i] < t[j]
      {
        if j < |r| {
          assert t[i] == r[i] && t[j] == r[j];
        } else {
          assert r[i] in r;
          assert t[i] == r[i] && t[j] == k - 1;
        }
      }
    }
  }

  /** The first n primes, 2, 3, 5, 7, 11, ... */
  ghost function Primes(n: nat): (r: seq<nat>)
    ensures |r| == n
  {
    if n == 0 then []
    else if n == 1 then [2]
    else
      var r := Primes(n - 1);
      r + [NextPrime(r[n - 2])]
  }

  /** Primes(n) is made of n primes in increasing order. */
  lemma {:induction false} PrimesSpec(n: nat)
    ensures forall i :: 0 <= i < n ==> IsPrime(Primes(n)[i])
    ensures forall i, j :: 0 <= i < j < n ==> Primes(n)[i] < Primes(n)[j]
  {
    if n > 1 {
      PrimesSpec(n - 1);
    }
  }

  /** No primes in [lo, hi): the primes below hi are those below lo. */
  lemma {:induction false} PrimesBelowGap(lo: nat, hi: nat)
    requires lo <= hi
    requires forall n: nat :: lo <= n < hi ==> !IsPrime(n)
    ensures PrimesBelow(hi) == PrimesBelow(lo)
    decreases hi - lo
  {
    if lo < hi {
      PrimesBelowGap(lo, hi - 1);
      if hi > 2 {
        assert !IsPrime(hi - 1);
      } else {
        assert PrimesBelow(lo) == [];
      }
    }
  }

  /** Nothing prime lies between the largest prime below k and k. */
  lemma PrimesBelowLast(k: int)
    requires |PrimesBelow(k)| > 0
    ensures var r := PrimesBelow(k); forall q: nat :: r[|r| - 1] < q < k ==> !IsPrime(q)
  {
    PrimesBelowSpec(k);
    var r := PrimesBelow(k);
    forall q: nat | r[|r| - 1] < q < k
      ensures !IsPrime(q)
    {
      assert forall i :: 0 <= i < |r| ==> r[i] != q;
    }
  }

  /** A prime c with no prime between p and c is the prime after p. */
  lemma NextPrimeIs(p: nat, c: nat)
    requires p < c && IsPrime(c)
    requires forall q: nat :: p < q < c ==> !IsPrime(q)
    ensures NextPrime(p) == c
  {
  }

  lemma PrimesStep(n: nat)
    requires n >= 2
    ensures Primes(n) == Primes(n - 1) + [NextPrime(Primes(n - 1)[n - 2])]
  {
  }

  /** The primes below a bound are an initial segment of the primes: the list of
      primes below k is the first |PrimesBelow(k)| primes. */
  lemma {:induction false} PrimesBelowArePrefix(k: int)
    ensures PrimesBelow(k) == Primes(|PrimesBelow(k)|)
    decreases if k < 0 then 0 else k
  {
    if k > 2 {
      var r := PrimesBelow(k - 1);
      PrimesBelowArePrefix(k - 1);
      if IsPrime(k - 1) {
        assert PrimesBelow(k) == r + [k - 1];
        PrimesExtend(r, k - 1);
      } else {
        assert PrimesBelow(k) == r;
      }
    }
  }

  /** Appending the next prime to the primes below it gives the next list of first primes. */
  lemma PrimesExtend(r: seq<nat>, c: nat)
    requires r == PrimesBelow(c) && r == Primes(|r|) && IsPrime(c)
    ensures r + [c] == Primes(|r| + 1)
  {
    var m := |r|;
    PrimesBelowSpec(c);
    if m == 0 {
      assert IsPrime(2);
    } else {
      PrimesBelowLast(c);
      NextPrimeIs(r[m - 1], c);
      PrimesStep(m + 1);
    }
  }

  /** Below 25 a number is prime exactly when it is 2, 3, or divisible by
      neither: a composite has a prime factor whose square it exceeds. */
  lemma SmallPrimeTest(n: nat)
    requires 2 <= n < 25
    ensures IsPrime(n) <==> n == 2 || n == 3 || (n % 2 != 0 && n % 3 != 0)
  {
    assert n > 2 && n % 2 == 0 ==> Divides(2, n);
    assert n > 3 && n % 3 == 0 ==> Divides(3, n);
    if !IsPrime(n) {
      var p := SmallPrimeFactor(n);
      assert p < 5;
      assert Divides(2, 4);
    }
  }

  lemma PrimesBelowEight()
    ensures PrimesBelow(8) == [2, 3, 5, 7]
  {
    SmallPrimeTest(2); SmallPrimeTest(3); SmallPrimeTest(4);
    SmallPrimeTest(5); SmallPrimeTest(6); SmallPrimeTest(7);
    assert PrimesBelow(3) == [2];
    assert PrimesBelow(4) == [2, 3];
    assert PrimesBelow(6) == PrimesBelow(5) + [5] == [2, 3, 5];
  }

  lemma PrimesBelowFourteen()
    ensures PrimesBelow(14) == [2, 3, 5, 7, 11, 13]
  {
    PrimesBelowEight();
    SmallPrimeTest(8); SmallPrimeTest(9); SmallPrimeTest(10);
    SmallPrimeTest(11); SmallPrimeTest(12); SmallPrimeTest(13);
    assert PrimesBelow(11) == PrimesBelow(8);
    assert PrimesBelow(13) == PrimesBelow(12) == PrimesBelow(11) + [11];
  }

  /** The primes below 20, which `shuffle` walks for a list of four. */
  lemma PrimesBelowTwenty()
    ensures PrimesBelow(20) == [2, 3, 5, 7, 11, 13, 17, 19]
  {
    PrimesBelowFourteen();
    SmallPrimeTest(14); SmallPrimeTest(15); SmallPrimeTest(16);
    SmallPrimeTest(17); SmallPrimeTest(18); SmallPrimeTest(19);
    assert PrimesBelow(17) == PrimesBelow(14);
    assert PrimesBelow(19) == PrimesBelow(18) == PrimesBelow(17) + [17];
  }
}
