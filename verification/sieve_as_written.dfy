/** `eratosthenes` (chraind.py:7-27) exactly as written: a composite candidate q
    sends each of its witnesses p to the key p + q.  Both p and q lie on the
    6k+-1 wheel, so p + q is even and never comes up as a candidate again; the
    witness is lost, and the next odd multiple of p goes through as a prime.
    Module Sieve holds the corrected sieve that the rest of the model uses. */
module SieveAsWritten {
  import opened PrimeNumbers
  import Sieve

  /** The key the source moves a witness p of the candidate q to. */
  function MovedKey(p: nat, q: nat): nat
  {
    p + q
  }

  /** A moved witness never waits at a wheel candidate: the source's sieve forgets
      every witness it moves. */
  lemma MovedKeyOffWheel(p: nat, q: nat)
    requires Wheel(p) && Wheel(q)
    ensures !Wheel(MovedKey(p, q))
  {
    var a, b := p / 6, q / 6;
    assert p == 6 * a + p % 6 && q == 6 * b + q % 6;
    assert MovedKey(p, q) == 6 * (a + b) + (p % 6 + q % 6);
    assert (p % 6 + q % 6) % 2 == 0;
  }

  /** `for p in D[q]: D.setdefault(p + q, []).append(p)`. */
  function MoveAll(D: map<nat, seq<nat>>, ws: seq<nat>, q: nat): (D': map<nat, seq<nat>>)
    ensures D.Keys <= D'.Keys
    decreases |ws|
  {
    if |ws| == 0 then D else MoveAll(Sieve.Push(D, MovedKey(ws[0], q), ws[0]), ws[1..], q)
  }

  /** The moves add exactly the keys p + q, one per witness p. */
  lemma {:induction false} MoveAllKeys(D: map<nat, seq<nat>>, ws: seq<nat>, q: nat)
    ensures MoveAll(D, ws, q).Keys == D.Keys + set p | p in ws :: MovedKey(p, q)
    decreases |ws|
  {
    if |ws| > 0 {
      var D1 := Sieve.Push(D, MovedKey(ws[0], q), ws[0]);
      MoveAllKeys(D1, ws[1..], q);
      assert (set p | p in ws :: MovedKey(p, q))
        == {MovedKey(ws[0], q)} + set p | p in ws[1..] :: MovedKey(p, q) by {
        assert ws == [ws[0]] + ws[1..];
      }
    }
  }

  /** One candidate q: yielded and recorded at q * q when it is not in D,
      otherwise its witnesses moved on and its key dropped. */
  datatype Sift = Sift(D: map<nat, seq<nat>>, yielded: bool)

  function SiftCandidate(D: map<nat, seq<nat>>, q: nat): (r: Sift)
    ensures r.yielded <==> q !in D
  {
    if q !in D then Sift(D[q * q := [q]], true)
    else Sift(MoveAll(D, D[q], q) - {q}, false)
  }

  /** The keys a candidate leaves: a yielded q adds q * q with the witness q, a
      composite q gives up its own key for the keys p + q of its witnesses. */
  lemma SiftKeys(D: map<nat, seq<nat>>, q: nat)
    ensures var r := SiftCandidate(D, q);
      (r.yielded ==> r.D.Keys == D.Keys + {q * q} && r.D[q * q] == [q]) &&
      (!r.yielded ==> r.D.Keys == (D.Keys + set p | p in D[q] :: MovedKey(p, q)) - {q})
  {
    if q in D {
      MoveAllKeys(D, D[q], q);
    }
  }

  /** A composite candidate whose witnesses lie on the wheel leaves every other
      wheel number marked as it was: the moved witnesses wait at keys the
      candidates never reach. */
  lemma SiftKeepsWheelKeys(D: map<nat, seq<nat>>, q: nat)
    requires Wheel(q) && q in D && forall p :: p in D[q] ==> Wheel(p)
    ensures var r := SiftCandidate(D, q);
      !r.yielded && forall m: nat :: Wheel(m) && m != q ==> (m in r.D <==> m in D)
  {
    var r := SiftCandidate(D, q);
    SiftKeys(D, q);
    forall m: nat | Wheel(m) && m != q && m in r.D
      ensures m in D
    {
      if m !in D {
        var p :| p in D[q] && MovedKey(p, q) == m;
        MovedKeyOffWheel(p, q);
        assert false;
      }
    }
  }

  /** What the generator yields below k from the candidate q onwards, D being
      its map when it reaches q. */
  function YieldedFrom(D: map<nat, seq<nat>>, q: nat, k: nat): (ys: seq<nat>)
    requires Wheel(q)
    ensures forall y :: y in ys ==> q <= y < k
    decreases k - q
  {
    if k <= q then []
    else
      var s := SiftCandidate(D, q);
      (if s.yielded then [q] else []) + YieldedFrom(s.D, Sieve.NextWheel(q), k)
  }

  /** What `eratosthenes()` as written yields below k: 2, 3 and 5, then the wheel
      from 7 with D = {25: [5]}. */
  function YieldedBelow(k: nat): (ys: seq<nat>)
    ensures forall y :: y in ys ==> y < k
  {
    var head := if k <= 2 then [] else if k <= 3 then [2] else if k <= 5 then [2, 3] else [2, 3, 5];
    head + (if k <= 7 then [] else YieldedFrom(map[25 := [5]], 7, k))
  }

  /** From a candidate q <= 35 on, 35 is yielded if D marks no wheel number up to
      35 except 25, and that one only with its witness 5 and before q passes
      it: the only witness that could stop 35, 5, leaves 25 for 30. */
  lemma {:induction false} ReachesThirtyFive(D: map<nat, seq<nat>>, q: nat)
    requires Wheel(q) && 7 <= q <= 35
    requires forall m :: m in D && m <= 35 && Wheel(m) ==> m == 25 && q <= 25 && D[m] == [5]
    ensures 35 in YieldedFrom(D, q, 36)
    decreases 35 - q
  {
    var s := SiftCandidate(D, q);
    var next := Sieve.NextWheel(q);
    assert YieldedFrom(D, q, 36) == (if s.yielded then [q] else []) + YieldedFrom(s.D, next, 36);
    if q == 35 {
      assert s.yielded;
    } else {
      assert q < 25 ==> next <= 25;
      if q == 25 && q in D {
        assert D[q] == [5];
        MoveOne(D, 5, 25);
        assert s.D.Keys == D.Keys + {30} - {25};
      } else {
        assert q !in D;
        MulMonotone(q, 7, q);
      }
      ReachesThirtyFive(s.D, next);
    }
  }

  lemma MoveOne(D: map<nat, seq<nat>>, p: nat, q: nat)
    ensures MoveAll(D, [p], q) == Sieve.Push(D, p + q, p)
  {
    assert [p][1..] == [];
    assert MoveAll(D, [p], q) == MoveAll(Sieve.Push(D, p + q, p), [], q);
  }

  /** The source's generator yields 35 = 5 * 7 as a prime: the witness 5 of 25
      went to the key 30, which is never a candidate. */
  lemma YieldsComposite()
    ensures 35 in YieldedBelow(36) && !IsPrime(35)
  {
    assert Divides(5, 35);
    ReachesThirtyFive(map[25 := [5]], 7);
  }

  /** So `primes_under(36)` as written differs from the primes below 36, which
      the corrected Sieve.PrimesUnder returns. */
  lemma DiffersFromPrimes()
    ensures YieldedBelow(36) != PrimesBelow(36)
  {
    YieldsComposite();
    PrimesBelowSpec(36);
  }
}
