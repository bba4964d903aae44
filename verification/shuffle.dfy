/** What `Chraind.shuffle` (chraind.py:64-71) does to a list, as a function of the
    list and of the primes it walks through.

    The method walks the primes p below len(L) * N, keeping a cursor i that runs
    round the list: the k-th prime swaps positions k mod l and p mod l. */
module Shuffling {
  import opened PrimeNumbers

  /** Python's `L[i], L[j] = L[j], L[i]` on a list value. */
  function Swap<T>(s: seq<T>, i: nat, j: nat): (r: seq<T>)
    requires i < |s| && j < |s|
    ensures |r| == |s|
  {
    s[i := s[j]][j := s[i]]
  }

  /** A swap exchanges two items and keeps every other in place. */
  lemma SwapPermutes<T>(s: seq<T>, i: nat, j: nat)
    requires i < |s| && j < |s|
    ensures var r := Swap(s, i, j); r[i] == s[j] && r[j] == s[i]
    ensures forall k :: 0 <= k < |s| && k != i && k != j ==> Swap(s, i, j)[k] == s[k]
    ensures multiset(Swap(s, i, j)) == multiset(s)
  {
    assert multiset(s[i := s[j]]) == multiset(s) - multiset{s[i]} + multiset{s[j]};
  }

  /** The swaps made for the primes ps, in order, on a non-empty list s. */
  function ShuffleRun<T>(s: seq<T>, ps: seq<nat>): (r: seq<T>)
    requires |s| > 0
    ensures |r| == |s|
  {
    if |ps| == 0 then s
    else
      var k := |ps| - 1;
      Swap(ShuffleRun(s, ps[..k]), k % |s|, ps[k] % |s|)
  }

  /** `shuffle(L, N)`: the swaps for the primes below len(L) * N.  An empty list
      draws no prime, so the modulo by its length never happens. */
  ghost function ShuffleSpec<T>(s: seq<T>, n: nat): (r: seq<T>)
    ensures |r| == |s|
  {
    if |s| == 0 then s else ShuffleRun(s, PrimesBelow(|s| * n))
  }

  /** The swaps only reorder the list. */
  lemma {:induction false} ShuffleRunPermutes<T>(s: seq<T>, ps: seq<nat>)
    requires |s| > 0
    ensures multiset(ShuffleRun(s, ps)) == multiset(s)
  {
    if |ps| > 0 {
      var k := |ps| - 1;
      ShuffleRunPermutes(s, ps[..k]);
      SwapPermutes(ShuffleRun(s, ps[..k]), k % |s|, ps[k] % |s|);
    }
  }

  /** `shuffle` returns a permutation of its list. */
  lemma ShufflePermutes<T>(s: seq<T>, n: nat)
    ensures multiset(ShuffleSpec(s, n)) == multiset(s)
  {
    if |s| > 0 {
      ShuffleRunPermutes(s, PrimesBelow(|s| * n));
    }
  }

  /** On a one-element list every swap exchanges position 0 with itself. */
  lemma {:induction false} ShuffleRunSingle<T>(s: seq<T>, ps: seq<nat>)
    requires |s| == 1
    ensures ShuffleRun(s, ps) == s
  {
    if |ps| > 0 {
      ShuffleRunSingle(s, ps[..|ps| - 1]);
    }
  }

  lemma ShuffleSingle<T>(s: seq<T>, n: nat)
    requires |s| <= 1
    ensures ShuffleSpec(s, n) == s
  {
    if |s| == 1 {
      ShuffleRunSingle(s, PrimesBelow(n));
    }
  }

  /** 0, 1, ..., l - 1: the positions of a list of length l. */
  function Iota(l: nat): (r: seq<nat>)
    ensures |r| == l && forall k :: 0 <= k < l ==> r[k] == k
  {
    if l == 0 then [] else Iota(l - 1) + [l - 1]
  }

  /** Where the shuffle takes each element from: the shuffle applied to the
      positions themselves. */
  function Positions(l: nat, ps: seq<nat>): (t: seq<nat>)
    requires l > 0
    ensures |t| == l
  {
    ShuffleRun(Iota(l), ps)
  }

  /** The shuffle depends on the length of the list only: the element at position
      k afterwards is the one that stood at Positions(l, ps)[k] before. */
  lemma {:induction false} ShuffleByPositions<T>(s: seq<T>, ps: seq<nat>)
    requires |s| > 0
    ensures var t := Positions(|s|, ps);
      forall k :: 0 <= k < |s| ==> t[k] < |s| && ShuffleRun(s, ps)[k] == s[t[k]]
  {
    var l := |s|;
    if |ps| > 0 {
      var n := |ps| - 1;
      ShuffleByPositions(s, ps[..n]);
      var t0 := Positions(l, ps[..n]);
      var r0 := ShuffleRun(s, ps[..n]);
      var i, j := n % l, ps[n] % l;
      assert Positions(l, ps) == Swap(t0, i, j);
      assert ShuffleRun(s, ps) == Swap(r0, i, j);
      SwapPermutes(t0, i, j);
      SwapPermutes(r0, i, j);
    }
  }

  /** Two lists of the same length are shuffled the same way. */
  lemma ShuffleSameLength<T>(s: seq<T>, u: seq<T>, n: nat, k: nat)
    requires |s| == |u| && k < |s|
    ensures exists j :: 0 <= j < |s| && ShuffleSpec(s, n)[k] == s[j] && ShuffleSpec(u, n)[k] == u[j]
  {
    var ps := PrimesBelow(|s| * n);
    ShuffleByPositions(s, ps);
    ShuffleByPositions(u, ps);
    var j := Positions(|s|, ps)[k];
    assert ShuffleSpec(s, n)[k] == s[j] && ShuffleSpec(u, n)[k] == u[j];
  }

  /** One more prime makes one more swap. */
  lemma ShuffleRunSnoc<T>(s: seq<T>, ps: seq<nat>, p: nat)
    requires |s| > 0
    ensures ShuffleRun(s, ps + [p]) == Swap(ShuffleRun(s, ps), |ps| % |s|, p % |s|)
  {
    assert (ps + [p])[..|ps|] == ps;
  }

  /** The swaps for the first k primes of ps. */
  ghost function Prefix<T>(s: seq<T>, ps: seq<nat>, k: nat): seq<T>
    requires |s| > 0 && k <= |ps|
  {
    ShuffleRun(s, ps[..k])
  }

  /** The k-th prime makes the k-th swap. */
  lemma ShuffleRunPrefix<T>(s: seq<T>, ps: seq<nat>, k: nat)
    requires |s| > 0 && k < |ps|
    ensures Prefix(s, ps, k + 1) == Swap(Prefix(s, ps, k), k % |s|, ps[k] % |s|)
  {
    assert ps[..k + 1][..k] == ps[..k];
  }

  /** A list of four is shuffled with the primes 2 to 19:
      `shuffle([0, 1, 2, 3])` gives [1, 3, 0, 2]. */
  lemma ShuffleFour<T>(s: seq<T>)
    requires |s| == 4
    ensures ShuffleSpec(s, 5) == [s[1], s[3], s[0], s[2]]
  {
    PrimesBelowTwenty();
    var ps := PrimesBelow(20);
    assert ps[..8] == ps;
    ShuffleFourFirst(s, ps);
    ShuffleFourLast(s, ps);
  }

  /** The swaps for 2, 3, 5 and 7. */
  lemma ShuffleFourFirst<T>(s: seq<T>, ps: seq<nat>)
    requires |s| == 4 && |ps| == 8
    requires ps[0] == 2 && ps[1] == 3 && ps[2] == 5 && ps[3] == 7
    ensures Prefix(s, ps, 4) == [s[2], s[0], s[3], s[1]]
  {
    assert ps[..0] == [];
    ShuffleRunPrefix(s, ps, 0);
    assert Prefix(s, ps, 1) == [s[2], s[1], s[0], s[3]];
    ShuffleRunPrefix(s, ps, 1);
    assert Prefix(s, ps, 2) == [s[2], s[3], s[0], s[1]];
    ShuffleRunPrefix(s, ps, 2);
    assert Prefix(s, ps, 3) == [s[2], s[0], s[3], s[1]];
    ShuffleRunPrefix(s, ps, 3);
  }

  /** The swaps for 11, 13, 17 and 19. */
  lemma ShuffleFourLast<T>(s: seq<T>, ps: seq<nat>)
    requires |s| == 4 && |ps| == 8
    requires ps[4] == 11 && ps[5] == 13 && ps[6] == 17 && ps[7] == 19
    requires Prefix(s, ps, 4) == [s[2], s[0], s[3], s[1]]
    ensures Prefix(s, ps, 8) == [s[1], s[3], s[0], s[2]]
  {
    ShuffleRunPrefix(s, ps, 4);
    assert Prefix(s, ps, 5) == [s[1], s[0], s[3], s[2]];
    ShuffleRunPrefix(s, ps, 5);
    assert Prefix(s, ps, 6) == [s[1], s[0], s[3], s[2]];
    ShuffleRunPrefix(s, ps, 6);
    assert Prefix(s, ps, 7) == [s[1], s[3], s[0], s[2]];
    ShuffleRunPrefix(s, ps, 7);
  }
}
