/** The incremental 6k+-1 wheel sieve of `eratosthenes` (chraind.py:7-27) and the
    two generators built on it, `primes` (chraind.py:29-38) and `primes_under`
    (chraind.py:40-48).

    The sieve keeps a map D from upcoming composite candidates to the primes that
    witness them.  This is the corrected sieve: when a composite candidate q is
    reached, each witness p is moved to the next multiple of p that is itself a
    wheel candidate (q + 2p or q + 4p).  The source moves it to p + q, which is
    never a candidate; module SieveAsWritten models that version. */
module Sieve {
  import opened PrimeNumbers

  /** The candidate after c on the wheel: a+1 is followed by a+5, a+5 by a+7. */
  function NextWheel(c: nat): (r: nat)
    requires Wheel(c)
    ensures c < r <= c + 4 && Wheel(r)
    ensures forall x: nat :: c < x < r ==> !Wheel(x)
  {
    if c % 6 == 1 then c + 4 else c + 2
  }

  ghost predicate WheelMultiple(p: nat, x: nat)
  {
    Wheel(x) && Divides(p, x)
  }

  /** No wheel candidate in [lo, hi) is a multiple of p. */
  ghost predicate NoWheelMultiple(p: nat, lo: nat, hi: nat)
  {
    forall x: nat :: lo <= x < hi ==> !WheelMultiple(p, x)
  }

  /** The wheel multiple of p that follows the wheel multiple c. */
  function NextWheelMultiple(p: nat, c: nat): (m: nat)
    requires Wheel(p) && Wheel(c) && Divides(p, c)
    ensures c < m && Wheel(m) && Divides(p, m)
    ensures NoWheelMultiple(p, c + 1, m)
  {
    WheelMultipleGap(p, c);
    if Wheel(c + 2 * p) then c + 2 * p else c + 4 * p
  }

  /** Of c + p, c + 2p, c + 3p, c + 4p for wheel numbers c and p, the odd steps are
      off the wheel and one of the even steps is on it. */
  lemma WheelOffsets(p: nat, c: nat)
    requires Wheel(p) && Wheel(c)
    ensures !Wheel(c + p) && !Wheel(c + 3 * p)
    ensures Wheel(c + 2 * p) || Wheel(c + 4 * p)
  {
    var a, r := c / 6, c % 6;
    var b, s := p / 6, p % 6;
    assert c == 6 * a + r && p == 6 * b + s;
    assert c + p == 6 * (a + b) + (r + s);
    assert c + 2 * p == 6 * (a + 2 * b) + (r + 2 * s);
    assert c + 3 * p == 6 * (a + 3 * b) + (r + 3 * s);
    assert c + 4 * p == 6 * (a + 4 * b) + (r + 4 * s);
  }

  /** A multiple of p strictly between c and c + 4p, c a multiple of p, is
      c + p, c + 2p or c + 3p. */
  lemma MultipleBetween(p: nat, c: nat, x: nat)
    requires Divides(p, c) && Divides(p, x) && c < x < c + 4 * p
    ensures x == c + p || x == c + 2 * p || x == c + 3 * p
  {
    DividesDifference(p, x, c);
    var j := (x - c) / p;
    DividesQuotient(p, x - c);
    assert x - c == p * j;
    if j >= 4 {
      MulMonotone(p, 4, j);
    }
    assert 1 <= j <= 3;
  }

  lemma WheelMultipleGap(p: nat, c: nat)
    requires Wheel(p) && Wheel(c) && Divides(p, c)
    ensures Wheel(c + 2 * p) || Wheel(c + 4 * p)
    ensures Divides(p, c + 2 * p) && Divides(p, c + 4 * p)
    ensures NoWheelMultiple(p, c + 1, if Wheel(c + 2 * p) then c + 2 * p else c + 4 * p)
  {
    WheelOffsets(p, c);
    var m := if Wheel(c + 2 * p) then c + 2 * p else c + 4 * p;
    DividesMultiple(p, 2);
    DividesMultiple(p, 4);
    DividesSum(p, c, p * 2);
    DividesSum(p, c, p * 4);
    forall x: nat | c + 1 <= x < m
      ensures !WheelMultiple(p, x)
    {
      if WheelMultiple(p, x) {
        MultipleBetween(p, c, x);
      }
    }
  }

  lemma WheelSquare(c: nat)
    requires Wheel(c)
    ensures Wheel(c * c)
  {
    var k, r := c / 6, c % 6;
    assert c == 6 * k + r;
    if r == 1 {
      assert c * c == 6 * (6 * k * k + 2 * k) + 1;
      Bits.ModUnique(c * c, 6, 6 * k * k + 2 * k, 1);
    } else {
      assert c * c == 6 * (6 * k * k + 10 * k + 4) + 1;
      Bits.ModUnique(c * c, 6, 6 * k * k + 10 * k + 4, 1);
    }
  }

  // ---------------------------------------------------------------------------
  // The sieve invariant, at candidate c

  /** Every key is a wheel candidate not yet reached, with at least one witness. */
  ghost predicate KeysAhead(D: map<nat, seq<nat>>, c: nat)
  {
    forall m: nat :: m in D ==> Wheel(m) && c <= m && |D[m]| > 0
  }

  /** p is listed as a witness of the key m. */
  ghost predicate Witness(D: map<nat, seq<nat>>, m: nat, p: nat)
  {
    m in D && p in D[m]
  }

  /** Every witness is an already yielded prime from 5 on that divides its key, the
      key being at least its square. */
  ghost predicate WitnessesSound(D: map<nat, seq<nat>>, c: nat)
  {
    forall m: nat, p: nat :: Witness(D, m, p) ==> IsPrime(p) && 5 <= p < c && Divides(p, m) && p * p <= m
  }

  /** p sits at a key m with no wheel multiple of p in [lo, m). */
  ghost predicate HasSlot(D: map<nat, seq<nat>>, p: nat, lo: nat)
  {
    exists m: nat :: Witness(D, m, p) && NoWheelMultiple(p, lo, m)
  }

  /** Every yielded prime from 5 on waits at its next wheel multiple from
      max(c, p * p) on. */
  ghost predicate WitnessesComplete(D: map<nat, seq<nat>>, c: nat)
  {
    forall p: nat :: 5 <= p < c && IsPrime(p) ==> HasSlot(D, p, Max(c, p * p))
  }

  ghost predicate SieveInv(D: map<nat, seq<nat>>, c: nat)
  {
    7 <= c && Wheel(c) && KeysAhead(D, c) && WitnessesSound(D, c) && WitnessesComplete(D, c)
  }

  /** The sieve's test is right: a candidate is prime exactly when it is not a key. */
  lemma CandidateIsPrime(D: map<nat, seq<nat>>, c: nat)
    requires SieveInv(D, c)
    ensures IsPrime(c) <==> c !in D
  {
    if c in D {
      var p := D[c][0];
      assert Witness(D, c, p);
      MulMonotone(p, 5, p);
      assert Divides(p, c) && 2 <= p < c;
    } else if !IsPrime(c) {
      var p := SmallPrimeFactor(c);
      WheelCoprimeSix(c);
      assert 5 <= p < c;
      assert HasSlot(D, p, Max(c, p * p));
      var m: nat :| Witness(D, m, p) && NoWheelMultiple(p, Max(c, p * p), m);
      assert WheelMultiple(p, c);
      assert false;
    }
  }

  /** Yielding the prime candidate c and recording c * c keeps the invariant. */
  lemma PrimeStepInv(D: map<nat, seq<nat>>, c: nat)
    requires SieveInv(D, c) && c !in D
    ensures SieveInv(D[c * c := [c]], NextWheel(c))
  {
    CandidateIsPrime(D, c);
    var c' := NextWheel(c);
    var D' := D[c * c := [c]];
    WheelSquare(c);
    MulMonotone(c, 7, c);
    if c * c in D {
      var p := D[c * c][0];
      assert Witness(D, c * c, p);
      SquareOfPrimeFactors(p, c);
      assert false;
    }
    forall m: nat | m in D'
      ensures Wheel(m) && c' <= m && |D'[m]| > 0
    {
      if m != c * c {
        assert m in D && m != c;
      }
    }
    forall m: nat, p: nat | Witness(D', m, p)
      ensures IsPrime(p) && 5 <= p < c' && Divides(p, m) && p * p <= m
    {
      if m == c * c {
        assert p == c;
        DividesMultiple(c, c);
      } else {
        assert Witness(D, m, p);
      }
    }
    forall p: nat | 5 <= p < c' && IsPrime(p)
      ensures HasSlot(D', p, Max(c', p * p))
    {
      if p == c {
        assert Witness(D', c * c, c);
        assert NoWheelMultiple(c, Max(c', c * c), c * c);
      } else {
        PrimeIsWheel(p);
        assert p < c;
        assert HasSlot(D, p, Max(c, p * p));
        var m: nat :| Witness(D, m, p) && NoWheelMultiple(p, Max(c, p * p), m);
        assert Witness(D', m, p);
        assert NoWheelMultiple(p, Max(c', p * p), m);
      }
    }
  }

  // ---------------------------------------------------------------------------
  // Moving the witnesses of a composite candidate

  /** Python's `D.setdefault(k, []).append(p)`. */
  function Push(D: map<nat, seq<nat>>, k: nat, p: nat): (D': map<nat, seq<nat>>)
    ensures k in D' && D'.Keys == D.Keys + {k}
    ensures D'[k] == (if k in D then D[k] else []) + [p]
    ensures forall m :: m in D && m != k ==> D'[m] == D[m]
  {
    D[k := (if k in D then D[k] else []) + [p]]
  }

  /** p waits at a key beyond c with no wheel multiple of p in between. */
  ghost predicate Moved(D: map<nat, seq<nat>>, p: nat, c: nat)
  {
    exists m: nat :: Witness(D, m, p) && c < m && NoWheelMultiple(p, c + 1, m)
  }

  /** Every list of D0 is a prefix of the list of the same key in D. */
  ghost predicate Grown(D0: map<nat, seq<nat>>, D: map<nat, seq<nat>>)
  {
    forall m: nat :: m in D0 ==> m in D && D0[m] <= D[m]
  }

  /** The state of the loop over the witnesses ws of the composite candidate c:
      D0 is the map before the loop, D the current map, j witnesses moved. */
  ghost predicate Moving(D0: map<nat, seq<nat>>, D: map<nat, seq<nat>>, c: nat, ws: seq<nat>, j: nat)
  {
    SieveInv(D0, c) && c in D0 && ws == D0[c] && j <= |ws| &&
    KeysAhead(D, c) && WitnessesSound(D, c) &&
    c in D && D[c] == ws && Grown(D0, D) &&
    (forall i :: 0 <= i < j ==> Moved(D, ws[i], c))
  }

  lemma MoveStart(D: map<nat, seq<nat>>, c: nat)
    requires SieveInv(D, c) && c in D
    ensures Moving(D, D, c, D[c], 0)
  {
  }

  /** A prefix keeps its elements. */
  lemma PrefixIn(a: seq<nat>, b: seq<nat>, x: nat)
    requires a <= b && x in a
    ensures x in b
  {
    var i :| 0 <= i < |a| && a[i] == x;
    assert b[i] == x;
  }

  lemma MoveStep(D0: map<nat, seq<nat>>, D: map<nat, seq<nat>>, c: nat, ws: seq<nat>, j: nat)
    requires Moving(D0, D, c, ws, j) && j < |ws|
    ensures Wheel(ws[j]) && Wheel(c) && Divides(ws[j], c)
    ensures Moving(D0, Push(D, NextWheelMultiple(ws[j], c), ws[j]), c, ws, j + 1)
  {
    var p := ws[j];
    assert Witness(D0, c, p);
    PrimeIsWheel(p);
    var m := NextWheelMultiple(p, c);
    var D' := Push(D, m, p);
    MulMonotone(p, 5, p);
    forall k: nat | k in D'
      ensures Wheel(k) && c <= k && |D'[k]| > 0
    {
      if k != m {
        assert k in D;
      }
    }
    forall k: nat, w: nat | Witness(D', k, w)
      ensures IsPrime(w) && 5 <= w < c && Divides(w, k) && w * w <= k
    {
      if k != m || Witness(D, k, w) {
        assert Witness(D, k, w);
      } else {
        assert w == p;
      }
    }
    forall k: nat | k in D0
      ensures k in D' && D0[k] <= D'[k]
    {
      assert D[k] <= D'[k];
    }
    forall i | 0 <= i < j + 1
      ensures Moved(D', ws[i], c)
    {
      if i < j {
        assert Moved(D, ws[i], c);
        var k: nat :| Witness(D, k, ws[i]) && c < k && NoWheelMultiple(ws[i], c + 1, k);
        assert D[k] <= D'[k];
        PrefixIn(D[k], D'[k], ws[i]);
        assert Witness(D', k, ws[i]);
      } else {
        assert Witness(D', m, p);
      }
    }
  }

  /** After all witnesses are moved, dropping the key c and advancing the
      candidate restores the invariant. */
  lemma MoveDone(D0: map<nat, seq<nat>>, D: map<nat, seq<nat>>, c: nat, ws: seq<nat>)
    requires Moving(D0, D, c, ws, |ws|)
    ensures SieveInv(D - {c}, NextWheel(c))
  {
    var c' := NextWheel(c);
    var D' := D - {c};
    CandidateIsPrime(D0, c);
    forall m: nat | m in D'
      ensures Wheel(m) && c' <= m && |D'[m]| > 0
    {
      assert m in D && m != c;
    }
    forall m: nat, p: nat | Witness(D', m, p)
      ensures IsPrime(p) && 5 <= p < c' && Divides(p, m) && p * p <= m
    {
      assert Witness(D, m, p);
    }
    forall p: nat | 5 <= p < c' && IsPrime(p)
      ensures HasSlot(D', p, Max(c', p * p))
    {
      SlotAfterMove(D0, D, c, ws, p);
    }
  }

  lemma SlotAfterMove(D0: map<nat, seq<nat>>, D: map<nat, seq<nat>>, c: nat, ws: seq<nat>, p: nat)
    requires Moving(D0, D, c, ws, |ws|)
    requires 5 <= p < NextWheel(c) && IsPrime(p)
    ensures HasSlot(D - {c}, p, Max(NextWheel(c), p * p))
  {
    var c' := NextWheel(c);
    var D' := D - {c};
    CandidateIsPrime(D0, c);
    PrimeIsWheel(p);
    assert p < c;
    if p in ws {
      var i :| 0 <= i < |ws| && ws[i] == p;
      assert Moved(D, p, c);
      var m: nat :| Witness(D, m, p) && c < m && NoWheelMultiple(p, c + 1, m);
      assert Witness(D', m, p);
      assert NoWheelMultiple(p, Max(c', p * p), m);
    } else {
      assert HasSlot(D0, p, Max(c, p * p));
      var m: nat :| Witness(D0, m, p) && NoWheelMultiple(p, Max(c, p * p), m);
      assert m != c;
      PrefixIn(D0[m], D[m], p);
      assert Witness(D', m, p);
      assert NoWheelMultiple(p, Max(c', p * p), m);
    }
  }

  // ---------------------------------------------------------------------------
  // The first values

  /** 2, 3 and 5, yielded before the wheel starts, are the primes below 7. */
  lemma SmallPrimes()
    ensures IsPrime(2) && IsPrime(3) && !IsPrime(4) && IsPrime(5) && !IsPrime(6)
    ensures PrimesBelow(2) == [] && PrimesBelow(3) == [2] && PrimesBelow(4) == [2, 3]
    ensures PrimesBelow(5) == [2, 3] && PrimesBelow(6) == [2, 3, 5] && PrimesBelow(7) == [2, 3, 5]
  {
    assert Divides(2, 4) && Divides(2, 6);
    forall d | 2 <= d < 5
      ensures !Divides(d, 5)
    {
      assert d == 2 || d == 3 || d == 4;
    }
    assert PrimesBelow(3) == [2];
    assert PrimesBelow(4) == [2, 3];
    assert PrimesBelow(5) == [2, 3];
    assert PrimesBelow(6) == [2, 3, 5];
  }

  /** The state the generator enters the wheel loop with: D = {25: [5]}, a = 6. */
  lemma InitialInv()
    ensures SieveInv(map[25 := [5]], 7)
  {
    SmallPrimes();
    var D := map[25 := [5]];
    forall p: nat | 5 <= p < 7 && IsPrime(p)
      ensures HasSlot(D, p, Max(7, p * p))
    {
      assert p == 5;
      assert Witness(D, 25, 5) && NoWheelMultiple(5, 25, 25);
    }
  }

  /** The generator object behind `eratosthenes()`: a fresh one starts from 2. */
  class Eratosthenes {
    var D: map<nat, seq<nat>>
    /** The next number the generator considers: 2, 3, 5, then the wheel. */
    var cand: nat
    /** What the generator has yielded so far. */
    ghost var emitted: seq<nat>

    ghost predicate Valid()
      reads this
    {
      emitted == PrimesBelow(cand) &&
      (((cand == 2 || cand == 3 || cand == 5) && D == map[25 := [5]]) || SieveInv(D, cand))
    }

    constructor ()
      ensures Valid() && emitted == []
    {
      D := map[25 := [5]];
      cand := 2;
      emitted := [];
      new;
      SmallPrimes();
    }

    /** Resume the generator up to its next `yield`: the least prime not yet yielded. */
    method Next() returns (p: nat)
      requires Valid()
      modifies this
      ensures Valid()
      ensures IsPrime(p) && old(cand) <= p < cand
      ensures emitted == old(emitted) + [p] && emitted == PrimesBelow(p + 1)
    {
      if cand < 7 {
        SmallPrimes();
        p := cand;
        cand := if cand == 2 then 3 else if cand == 3 then 5 else 7;
        emitted := emitted + [p];
        InitialInv();
        return;
      }
      SkipComposites();
      CandidateIsPrime(D, cand);
      p := cand;
      PrimeStepInv(D, p);
      D := D[p * p := [p]];
      cand := NextWheel(p);
      emitted := emitted + [p];
      PrimeGap(p);
    }

    /** The `while q in D` loop: pass over the composite candidates, moving their
        witnesses ahead, up to the next prime. */
    method SkipComposites()
      requires SieveInv(D, cand) && emitted == PrimesBelow(cand)
      modifies this
      ensures SieveInv(D, cand) && emitted == PrimesBelow(cand) && cand !in D
      ensures old(cand) <= cand && emitted == old(emitted)
    {
      ghost var bound := NextPrime(cand - 1);
      PrimeIsWheel(bound);
      while cand in D
        invariant SieveInv(D, cand) && emitted == PrimesBelow(cand)
        invariant old(cand) <= cand <= bound && emitted == old(emitted)
        decreases bound - cand
      {
        CandidateIsPrime(D, cand);
        var q := cand;
        MoveWitnesses();
        cand := NextWheel(q);
        SkipOne(q, bound);
      }
    }

    /** The body of `while q in D`: each witness p of the composite candidate q is
        moved to its next wheel multiple, and the key q is dropped. */
    method MoveWitnesses()
      requires SieveInv(D, cand) && cand in D
      modifies this
      ensures cand == old(cand) && Wheel(cand) && SieveInv(D, NextWheel(cand)) && emitted == old(emitted)
    {
      var q := cand;
      var ws := D[q];
      ghost var D0 := D;
      MoveStart(D, q);
      for j := 0 to |ws|
        invariant Moving(D0, D, q, ws, j) && cand == q && emitted == old(emitted)
      {
        var w := ws[j];
        MoveStep(D0, D, q, ws, j);
        D := Push(D, NextWheelMultiple(w, q), w);
      }
      MoveDone(D0, D, q, ws);
      D := D - {q};
    }
  }

  /** Skipping a composite candidate adds no prime below the next candidate. */
  lemma CompositeGap(q: nat)
    requires Wheel(q) && q >= 7 && !IsPrime(q)
    ensures PrimesBelow(NextWheel(q)) == PrimesBelow(q)
  {
    forall n: nat | q <= n < NextWheel(q)
      ensures !IsPrime(n)
    {
      if n > q {
        NotWheelNotPrime(n);
      }
    }
    PrimesBelowGap(q, NextWheel(q));
  }

  /** A composite candidate below the next prime leaves the next candidate at or
      below that prime, with no prime added. */
  lemma SkipOne(q: nat, bound: nat)
    requires Wheel(q) && q >= 7 && !IsPrime(q) && q <= bound && IsPrime(bound) && Wheel(bound)
    ensures NextWheel(q) <= bound && PrimesBelow(NextWheel(q)) == PrimesBelow(q)
  {
    CompositeGap(q);
  }

  /** Yielding the prime candidate p adds exactly p below the next candidate. */
  lemma PrimeGap(p: nat)
    requires Wheel(p) && p >= 7 && IsPrime(p)
    ensures PrimesBelow(p + 1) == PrimesBelow(p) + [p]
    ensures PrimesBelow(NextWheel(p)) == PrimesBelow(p + 1)
  {
    forall n: nat | p + 1 <= n < NextWheel(p)
      ensures !IsPrime(n)
    {
      NotWheelNotPrime(n);
    }
    PrimesBelowGap(p + 1, NextWheel(p));
  }

  // ---------------------------------------------------------------------------
  // The generators

  /** Python's `primes(x)`: the first x primes; at least one, because the count is
      tested only after a prime has been yielded. */
  method FirstPrimes(x: int) returns (ps: seq<nat>)
    ensures ps == Primes(if x < 1 then 1 else x)
  {
    var gen := new Eratosthenes();
    ps := [];
    var n := 0;
    while true
      invariant gen.Valid() && ps == gen.emitted && n == |ps|
      invariant n < (if x < 1 then 1 else x)
      decreases (if x < 1 then 1 else x) - n
    {
      var p := gen.Next();
      n := n + 1;
      ps := ps + [p];
      if n >= x {
        break;
      }
    }
    assert ps == PrimesBelow(gen.cand);
    PrimesBelowArePrefix(gen.cand);
    assert n == (if x < 1 then 1 else x);
  }

  /** Python's `primes_under(k)`: the primes below k in increasing order.  Like the
      source it draws the first prime >= k from the generator and stops there. */
  method PrimesUnder(k: int) returns (ps: seq<nat>)
    ensures ps == PrimesBelow(k)
  {
    var gen := new Eratosthenes();
    ps := [];
    ghost var last: int := if k < 0 then k - 1 else -1;
    var p: nat;
    while true
      invariant gen.Valid() && ps == gen.emitted
      invariant forall q :: q in ps ==> q < k
      invariant last < gen.cand && last < k
      decreases k - last
    {
      p := gen.Next();
      if p < k {
        ps := ps + [p];
        last := p;
      } else {
        break;
      }
    }
    PrimesUnderStop(ps, p, k);
  }

  /** The first prime p >= k ends `primes_under(k)`: what came before it are
      exactly the primes below k. */
  lemma PrimesUnderStop(ps: seq<nat>, p: nat, k: int)
    requires IsPrime(p) && k <= p && ps + [p] == PrimesBelow(p + 1)
    requires forall q :: q in ps ==> q < k
    ensures ps == PrimesBelow(k)
  {
    PrimesBeforePrime(ps, p);
    PrimesBelowSpec(p);
    var r := PrimesBelow(p);
    var lo := Max(k, 0);
    forall n: nat | lo <= n < p
      ensures !IsPrime(n)
    {
      assert n in r <==> IsPrime(n) && n < p;
    }
    PrimesBelowGap(lo, p);
    assert PrimesBelow(k) == PrimesBelow(lo);
  }

  /** What the generator yielded before the prime p are the primes below p. */
  lemma PrimesBeforePrime(ps: seq<nat>, p: nat)
    requires IsPrime(p) && ps + [p] == PrimesBelow(p + 1)
    ensures ps == PrimesBelow(p)
  {
    assert PrimesBelow(p + 1) == PrimesBelow(p) + [p];
    var r := PrimesBelow(p);
    assert |ps| == |r|;
    assert ps == (ps + [p])[..|ps|] == (r + [p])[..|r|] == r;
  }
}
