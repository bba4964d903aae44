/** The `Chraind` object (chraind.py:50-107): an entropy pool and a list of items
    that seeds shuffle, and from which items are drawn by prime positions.

    The SHA-256 digests the source computes are parameters here: the constructor
    takes the digest of the initial seed, `Update` the digest of a seed line. */
module Engine {
  import opened Bits
  import opened PrimeNumbers
  import opened Sieve
  import opened Shuffling
  import opened Pool

  // ---------------------------------------------------------------------------
  // update's ten rounds

  /** What update's loop carries from one round to the next: the cursors a, b and
      the list. */
  datatype RoundState = RoundState(a: int, b: int, data: seq<string>)

  /** A list cut at lo <= hi is the three pieces it is made of. */
  lemma ThreePieces<T>(d: seq<T>, lo: nat, hi: nat)
    requires lo <= hi <= |d|
    ensures multiset(d[hi..] + d[lo..hi] + d[..lo]) == multiset(d)
    ensures |d[hi..] + d[lo..hi] + d[..lo]| == |d|
  {
    assert d == d[..lo] + d[lo..hi] + d[hi..];
  }

  /** One pass of update's loop body on a non-empty list: both cursors move at
      once (the new b is computed from the old a), are put in order, and the list
      becomes its tail from b, the shuffled middle, then its head before a. */
  ghost function Round(st: RoundState): (r: RoundState)
    requires |st.data| > 0
    ensures 0 <= r.a <= r.b < |st.data|
    ensures |r.data| == |st.data|
  {
    var l := |st.data|;
    var a, b := Xor(st.a, st.b) % l, Xor(st.b, st.a - 1) % l;
    var lo, hi := if a > b then b else a, if a > b then a else b;
    var d := st.data;
    RoundState(lo, hi, d[hi..] + ShuffleSpec(d[lo..hi], 5) + d[..lo])
  }

  /** n rounds. */
  ghost function Rounds(st: RoundState, n: nat): (r: RoundState)
    requires |st.data| > 0
    ensures |r.data| == |st.data|
    decreases n, 1
  {
    if n == 0 then st else LastRound(st, n)
  }

  /** The last of n rounds, on the state the first n - 1 left.  Rounds and
      LastRound unfold each other one level at a time, so a proof about many
      rounds does not see the body of every round at once. */
  ghost function LastRound(st: RoundState, n: nat): (r: RoundState)
    requires |st.data| > 0 && n > 0
    ensures |r.data| == |st.data|
    decreases n, 0
  {
    Round(Rounds(st, n - 1))
  }

  /** The list after n rounds.  The lemmas about many rounds are stated through
      it, which keeps the bodies of the rounds out of their proofs. */
  ghost function RoundsData(st: RoundState, n: nat): seq<string>
    requires |st.data| > 0
  {
    Rounds(st, n).data
  }

  /** A round only reorders the items. */
  lemma RoundPermutes(st: RoundState)
    requires |st.data| > 0
    ensures multiset(Round(st).data) == multiset(st.data)
  {
    var r := Round(st);
    var d := st.data;
    ThreePieces(d, r.a, r.b);
    ShufflePermutes(d[r.a..r.b], 5);
    assert r.data == d[r.b..] + ShuffleSpec(d[r.a..r.b], 5) + d[..r.a];
  }

  lemma RoundsStepPermutes(st: RoundState, n: nat)
    requires |st.data| > 0
    ensures multiset(RoundsData(st, n + 1)) == multiset(RoundsData(st, n))
  {
    assert Rounds(st, n + 1) == LastRound(st, n + 1);
    RoundPermutes(Rounds(st, n));
  }

  /** update keeps the items, it only reorders them. */
  lemma {:induction false} RoundsPermute(st: RoundState, n: nat)
    requires |st.data| > 0
    ensures multiset(RoundsData(st, n)) == multiset(st.data)
  {
    if n > 0 {
      RoundsPermute(st, n - 1);
      RoundsStepPermutes(st, n - 1);
    }
  }

  /** With a == 0, `b ^ (a - 1)` is Python's `~b`, and its floored remainder
      counts down from the end of the list. */
  lemma RoundFromZero(b: int, l: nat)
    requires l > 0
    ensures Xor(b, 0 - 1) % l == l - 1 - b % l
  {
    XorMinusOne(b);
    var q, r := b / l, b % l;
    assert -b - 1 == l * (-q - 1) + (l - 1 - r);
    Bits.ModUnique(-b - 1, l, -q - 1, l - 1 - r);
  }

  lemma RoundSingle(st: RoundState)
    requires |st.data| == 1
    ensures Round(st).data == st.data
  {
    var d := st.data;
    var r := Round(st);
    assert r.a == 0 && r.b == 0;
    assert d[0..0] == [];
    assert ShuffleSpec(d[0..0], 5) == [];
    assert r.data == d[0..] + [] + d[..0];
  }

  /** A one-item list goes through update unchanged. */
  lemma {:induction false} RoundsSingle(st: RoundState, n: nat)
    requires |st.data| == 1
    ensures Rounds(st, n).data == st.data
  {
    if n > 0 {
      RoundsSingle(st, n - 1);
      var s := Rounds(st, n - 1);
      assert |s.data| == 1;
      RoundSingle(s);
      assert Rounds(st, n) == LastRound(st, n) == Round(s);
    }
  }

  // ---------------------------------------------------------------------------
  // choose

  /** Python's `s[m:]`, a negative m counting from the end. */
  function SliceFrom<T>(s: seq<T>, m: int): (r: seq<T>)
    ensures |r| <= |s| && r == s[|s| - |r|..]
    ensures 0 <= m <= |s| ==> |r| == |s| - m
    ensures m < 0 ==> |r| == if -m <= |s| then -m else |s|
  {
    if m >= 0 then (if m <= |s| then s[m..] else [])
    else if -m <= |s| then s[|s| + m..] else s
  }

  /** The primes `choose(n)` draws by: `list(primes(n + 7n))[7n:]`. */
  ghost function DrawPrimes(n: int): seq<nat>
  {
    SliceFrom(Primes(if 8 * n < 1 then 1 else 8 * n), 7 * n)
  }

  /** `list(primes(n + 7n))[7n:]` is DrawPrimes(n). */
  lemma DrawPrimesFrom(n: int, all: seq<nat>)
    requires all == Primes(if n + 7 * n < 1 then 1 else n + 7 * n)
    ensures SliceFrom(all, 7 * n) == DrawPrimes(n)
  {
    assert n + 7 * n == 8 * n;
  }

  /** For n >= 1, the 7n+1-th to 8n-th primes, n of them; for n <= 0 still one
      prime, 2, because `primes` yields before it tests its count. */
  lemma DrawPrimesCount(n: int)
    ensures n >= 1 ==> DrawPrimes(n) == Primes(8 * n)[7 * n..] && |DrawPrimes(n)| == n
    ensures n <= 0 ==> DrawPrimes(n) == [2]
  {
    if n <= 0 {
      assert Primes(1) == [2];
    }
  }

  /** The outcome of drawing: the items drawn in order, the list left, and false
      when the list ran out before the primes did (`p % len(self.data)` with an
      empty list). */
  datatype Draw = Draw(drawn: seq<string>, rest: seq<string>, ok: bool)

  lemma RemoveAt<T>(s: seq<T>, i: nat)
    requires i < |s|
    ensures multiset(s) == multiset{s[i]} + multiset(s[..i] + s[i + 1..])
  {
    assert s == s[..i] + [s[i]] + s[i + 1..];
  }

  /** For each prime p in turn, take out the item at p mod the list's length. */
  function DrawAll(data: seq<string>, ps: seq<nat>): (r: Draw)
    ensures |r.drawn| + |r.rest| == |data|
    ensures r.ok <==> |ps| <= |data|
    ensures r.ok ==> |r.drawn| == |ps|
    ensures !r.ok ==> r.rest == []
    decreases |ps|
  {
    if |ps| == 0 then Draw([], data, true)
    else if |data| == 0 then Draw([], data, false)
    else
      var i := ps[0] % |data|;
      var rest := data[..i] + data[i + 1..];
      var r := DrawAll(rest, ps[1..]);
      Draw([data[i]] + r.drawn, r.rest, r.ok)
  }

  /** What `choose(n)` does to a list: draw by the primes DrawPrimes(n).  Methods
      state their results through this name, which unfolds DrawAll one level at
      a time. */
  ghost function Choice(data: seq<string>, n: int): Draw
  {
    DrawAll(data, DrawPrimes(n))
  }

  /** Every item ends up either drawn or left, once. */
  lemma {:induction false} DrawPartition(data: seq<string>, ps: seq<nat>)
    ensures var r := DrawAll(data, ps); multiset(r.drawn) + multiset(r.rest) == multiset(data)
    decreases |ps|
  {
    if |ps| > 0 && |data| > 0 {
      var i := ps[0] % |data|;
      var rest := data[..i] + data[i + 1..];
      RemoveAt(data, i);
      DrawPartition(rest, ps[1..]);
      var r := DrawAll(rest, ps[1..]);
      assert multiset([data[i]] + r.drawn) == multiset{data[i]} + multiset(r.drawn);
    }
  }

  lemma DrawUnfold(data: seq<string>, ps: seq<nat>)
    requires |ps| > 0 && |data| > 0
    ensures var i := ps[0] % |data|;
      var r := DrawAll(data[..i] + data[i + 1..], ps[1..]);
      DrawAll(data, ps) == Draw([data[i]] + r.drawn, r.rest, r.ok)
  {
  }

  /** Drawing after the items already drawn: one draw moves one item across. */
  lemma DrawAfter(drawn: seq<string>, data: seq<string>, ps: seq<nat>)
    requires |ps| > 0 && |data| > 0
    ensures var i := ps[0] % |data|;
      var r := DrawAll(data, ps);
      var r1 := DrawAll(data[..i] + data[i + 1..], ps[1..]);
      Draw(drawn + r.drawn, r.rest, r.ok) == Draw((drawn + [data[i]]) + r1.drawn, r1.rest, r1.ok)
  {
    var i := ps[0] % |data|;
    var r1 := DrawAll(data[..i] + data[i + 1..], ps[1..]);
    DrawUnfold(data, ps);
    assert drawn + ([data[i]] + r1.drawn) == (drawn + [data[i]]) + r1.drawn;
  }

  /** The first item drawn is the one at the first prime's position. */
  lemma DrawFirst(data: seq<string>, ps: seq<nat>)
    requires |ps| > 0 && |data| > 0
    ensures DrawAll(data, ps).drawn[0] == data[ps[0] % |data|]
  {
  }

  // ---------------------------------------------------------------------------
  // The object

  class Chraind {
    /** The entropy pool, a SHA-256 digest that mixin keeps changing. */
    var pool: array<Byte>
    /** The items, in their current order. */
    var data: seq<string>

    ghost predicate Valid()
      reads this
    {
      pool.Length == DigestSize
    }

    /** `Chraind(data, init_seed)`: the pool is the digest of the initial seed,
        diffused by the primes below its first byte; the items are shuffled in
        place. */
    constructor (items: array<string>, initDigest: seq<Byte>)
      requires |initDigest| == DigestSize
      modifies items
      ensures Valid() && fresh(pool)
      ensures pool[..] == Diffused(initDigest)
      ensures items[..] == ShuffleSpec(old(items[..]), 5) && data == items[..]
    {
      var l := |initDigest|;
      var p := new Byte[l](k requires 0 <= k < l => initDigest[k]);
      assert p[..] == initDigest;
      var ps := PrimesUnder(p[0]);
      for j := 0 to |ps|
        invariant p[..] == ApplyEdits(initDigest, DiffuseEdits(ps[..j], l))
        invariant items[..] == old(items[..])
      {
        var q := ps[j];
        assert DiffuseEdits(ps[..j + 1], l) == DiffuseEdits(ps[..j], l) + [DiffuseEdit(q, l)];
        ApplyEditsSnoc(initDigest, DiffuseEdits(ps[..j], l), DiffuseEdit(q, l));
        p[q % l] := XorByte(p[q % l], Low8(q * (q + 1)));
      }
      assert ps[..|ps|] == ps;
      pool := p;
      new;
      Shuffle(items, 5);
      data := items[..];
    }

    /** `shuffle(L, N)`: swap, for the k-th prime p below len(L) * N, the items at
        k mod len(L) and p mod len(L), in place. */
    static method Shuffle<T>(L: array<T>, N: nat)
      modifies L
      ensures L[..] == ShuffleSpec(old(L[..]), N)
    {
      var l := L.Length;
      var ps := PrimesUnder(l * N);
      if l == 0 {
        assert l * N == 0;
      }
      ghost var s0 := L[..];
      var i := 0;
      for k := 0 to |ps|
        invariant l == 0 ==> ps == []
        invariant l > 0 ==> i == k % l && k <= |ps| && L[..] == Prefix(s0, ps, k)
      {
        var p := ps[k] % l;
        ghost var before := L[..];
        L[i], L[p] := L[p], L[i];
        assert L[..] == Swap(before, i, p);
        ShuffleRunPrefix(s0, ps, k);
        ModNext(k, l);
        i := (i + 1) % l;
      }
      assert ps[..|ps|] == ps;
    }

    /** `mixin(content)`: rotate the pool right by three bytes, then for each
        content byte i XOR `(i ^ (i - 1)) & 0xff` into position (i + 3) mod 32. */
    method Mixin(content: seq<Byte>)
      requires Valid()
      modifies this
      ensures Valid() && fresh(pool) && data == old(data)
      ensures pool[..] == Mixed(old(pool[..]), content)
    {
      var rotated := RotateRight3(pool[..]);
      var p := new Byte[DigestSize](k requires 0 <= k < DigestSize => rotated[k]);
      assert p[..] == rotated;
      MixInto(p, content);
      pool := p;
    }

    /** `mixin`'s loop on the rotated pool p: for each content byte i, XOR its
        mask into position (i + 3) mod the length, in order. */
    static method MixInto(p: array<Byte>, content: seq<Byte>)
      requires p.Length > 0
      modifies p
      ensures p[..] == ApplyEdits(old(p[..]), MixEdits(content, p.Length))
    {
      ghost var start := p[..];
      var l := p.Length;
      for j := 0 to |content|
        invariant p[..] == ApplyEdits(start, MixEdits(content[..j], l))
      {
        var e := MixEdit(content[j], l);
        ghost var before := p[..];
        MixEditsSnoc(content[..j + 1], l);
        assert content[..j + 1][..j] == content[..j];
        ApplyEditsSnoc(start, MixEdits(content[..j], l), e);
        p[e.pos] := XorByte(p[e.pos], e.mask);
        assert p[..] == XorAt(before, e);
      }
      assert content[..|content|] == content;
    }

    /** `update(seed)`: mix the seed's digest into the pool, read the cursors from
        it, and run ten rounds.  An empty list makes `% l` fail after the pool
        has been mixed: ok is then false and the list is as it was. */
    method Update(digest: seq<Byte>) returns (ok: bool)
      requires Valid() && |digest| == DigestSize
      modifies this
      ensures Valid() && fresh(pool)
      ensures pool[..] == Mixed(old(pool[..]), digest)
      ensures ok <==> |old(data)| > 0
      ensures ok ==> data == Rounds(RoundState(WordA(pool[..]), WordB(pool[..]), old(data)), 10).data
      ensures !ok ==> data == old(data)
    {
      Mixin(digest);
      var mixed := pool[..];
      var a, b := WordA(mixed), WordB(mixed);
      if |data| == 0 {
        return false;
      }
      data := RunRounds(a, b, data);
      assert pool[..] == mixed;
      ok := true;
    }

    /** update's loop: ten rounds from the cursors a, b. */
    static method RunRounds(a: int, b: int, data: seq<string>) returns (data': seq<string>)
      requires |data| > 0
      ensures data' == Rounds(RoundState(a, b, data), 10).data
    {
      var start := RoundState(a, b, data);
      var st := start;
      for i := 0 to 10
        invariant |st.data| == |data| && st == Rounds(start, i)
      {
        var a', b', d' := RunRound(st.a, st.b, st.data);
        st := RoundState(a', b', d');
        assert Rounds(start, i + 1) == LastRound(start, i + 1);
      }
      data' := st.data;
    }

    /** The body of update's loop: move the cursors, then cut the list at them,
        shuffle the middle piece in a fresh list and put the pieces back in the
        new order. */
    static method RunRound(a: int, b: int, data: seq<string>) returns (a': int, b': int, data': seq<string>)
      requires |data| > 0
      ensures RoundState(a', b', data') == Round(RoundState(a, b, data))
    {
      var l := |data|;
      a', b' := Xor(a, b) % l, Xor(b, a - 1) % l;
      if a' > b' {
        a', b' := b', a';
      }
      var slice := data[a'..b'];
      var middle := new string[b' - a'](k requires 0 <= k < |slice| => slice[k]);
      assert middle[..] == slice;
      Shuffle(middle, 5);
      data' := data[b'..] + middle[..] + data[..a'];
    }

    /** `choose(how_many)`: draw the items at the primes `DrawPrimes(how_many)`,
        taking each out of the list.  ok is false when the list ran empty. */
    method Choose(howMany: int) returns (drawn: seq<string>, ok: bool)
      requires Valid()
      modifies this
      ensures Valid() && pool == old(pool)
      ensures Choice(old(data), howMany) == Draw(drawn, data, ok)
    {
      var m := 7 * howMany;
      var all := FirstPrimes(howMany + m);
      var ps := SliceFrom(all, m);
      DrawPrimesFrom(howMany, all);
      var rest;
      drawn, rest, ok := DrawEach(data, ps);
      data := rest;
    }

    /** choose's loop: for each prime, yield and delete the item at its
        position modulo the current length. */
    static method DrawEach(data: seq<string>, ps: seq<nat>) returns (drawn: seq<string>, rest: seq<string>, ok: bool)
      ensures Draw(drawn, rest, ok) == DrawAll(data, ps)
    {
      drawn, rest, ok := [], data, true;
      var k := 0;
      assert ps[0..] == ps;
      while k < |ps|
        invariant 0 <= k <= |ps|
        invariant var r := DrawAll(rest, ps[k..]);
          DrawAll(data, ps) == Draw(drawn + r.drawn, r.rest, r.ok)
      {
        if |rest| == 0 {
          ok := false;
          return;
        }
        var i := ps[k] % |rest|;
        DrawAfter(drawn, rest, ps[k..]);
        assert ps[k..][1..] == ps[k + 1..];
        drawn := drawn + [rest[i]];
        rest := rest[..i] + rest[i + 1..];
        k := k + 1;
      }
      assert ps[k..] == [];
    }
  }

  lemma ModNext(k: nat, l: nat)
    requires l > 0
    ensures (k % l + 1) % l == (k + 1) % l
  {
    var q, r := k / l, k % l;
    if r + 1 < l {
      Bits.ModUnique(k + 1, l, q, r + 1);
      Bits.ModUnique(r + 1, l, 0, r + 1);
    } else {
      Bits.ModUnique(k + 1, l, q + 1, 0);
      Bits.ModUnique(r + 1, l, 1, 0);
    }
  }
}
