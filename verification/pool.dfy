/** The entropy pool of `Chraind`: a 32-byte SHA-256 digest that the constructor
    diffuses (chraind.py:56-60), `mixin` rotates and XORs (chraind.py:73-82), and
    `update` reads two 32-bit words from (chraind.py:92).

    Every change the source makes to the pool is `pool[k] ^= mask` for some
    position k and byte mask; `Edit` is one such change. */
module Pool {
  import opened Bits
  import opened PrimeNumbers

  /** Length of a SHA-256 digest, the pool's length. */
  const DigestSize: nat := 32

  // ---------------------------------------------------------------------------
  // XOR edits

  /** `pool[pos] ^= mask`. */
  datatype Edit = Edit(pos: nat, mask: Byte)

  predicate InRange(es: seq<Edit>, l: nat)
  {
    forall j :: 0 <= j < |es| ==> es[j].pos < l
  }

  function XorAt(pool: seq<Byte>, e: Edit): (r: seq<Byte>)
    requires e.pos < |pool|
    ensures |r| == |pool| && Xor(r[e.pos], e.mask) == pool[e.pos]
    ensures forall k :: 0 <= k < |pool| && k != e.pos ==> r[k] == pool[k]
  {
    pool[e.pos := XorByte(pool[e.pos], e.mask)]
  }

  /** The edits es applied in order. */
  function ApplyEdits(pool: seq<Byte>, es: seq<Edit>): (r: seq<Byte>)
    requires InRange(es, |pool|)
    ensures |r| == |pool|
    ensures forall k :: 0 <= k < |pool| && (forall j :: 0 <= j < |es| ==> es[j].pos != k) ==> r[k] == pool[k]
  {
    if |es| == 0 then pool
    else XorAt(ApplyEdits(pool, es[..|es| - 1]), es[|es| - 1])
  }

  /** The edits es applied in reverse order. */
  function UndoEdits(pool: seq<Byte>, es: seq<Edit>): (r: seq<Byte>)
    requires InRange(es, |pool|)
    ensures |r| == |pool|
    decreases |es|
  {
    if |es| == 0 then pool
    else UndoEdits(XorAt(pool, es[|es| - 1]), es[..|es| - 1])
  }

  /** The same edit twice is no edit. */
  lemma XorAtTwice(pool: seq<Byte>, e: Edit)
    requires e.pos < |pool|
    ensures XorAt(XorAt(pool, e), e) == pool
  {
    var r := XorAt(XorAt(pool, e), e);
    assert r[e.pos] == pool[e.pos];
  }

  /** Undoing the edits restores the pool ... */
  lemma {:induction false} UndoApply(pool: seq<Byte>, es: seq<Edit>)
    requires InRange(es, |pool|)
    ensures UndoEdits(ApplyEdits(pool, es), es) == pool
  {
    if |es| > 0 {
      var n := |es| - 1;
      var q := ApplyEdits(pool, es[..n]);
      XorAtTwice(q, es[n]);
      UndoApply(pool, es[..n]);
    }
  }

  /** ... and every pool is the result of the edits applied to some pool. */
  lemma {:induction false} ApplyUndo(pool: seq<Byte>, es: seq<Edit>)
    requires InRange(es, |pool|)
    ensures ApplyEdits(UndoEdits(pool, es), es) == pool
    decreases |es|
  {
    if |es| > 0 {
      var n := |es| - 1;
      var q := XorAt(pool, es[n]);
      ApplyUndo(q, es[..n]);
      XorAtTwice(pool, es[n]);
    }
  }

  lemma ApplyEditsSnoc(pool: seq<Byte>, es: seq<Edit>, e: Edit)
    requires InRange(es, |pool|) && e.pos < |pool|
    ensures InRange(es + [e], |pool|)
    ensures ApplyEdits(pool, es + [e]) == XorAt(ApplyEdits(pool, es), e)
  {
    assert (es + [e])[..|es|] == es;
  }

  // ---------------------------------------------------------------------------
  // The constructor's diffusion: pool[p % l] ^= (p * (p + 1)) & 0xff

  function DiffuseEdit(p: nat, l: nat): (e: Edit)
    requires l > 0
    ensures e.pos < l
  {
    Edit(p % l, Low8(p * (p + 1)))
  }

  function DiffuseEdits(ps: seq<nat>, l: nat): (es: seq<Edit>)
    requires l > 0
    ensures |es| == |ps| && InRange(es, l)
    ensures forall j :: 0 <= j < |ps| ==> es[j] == DiffuseEdit(ps[j], l)
  {
    seq(|ps|, j requires 0 <= j < |ps| => DiffuseEdit(ps[j], l))
  }

  /** The pool the constructor builds from the digest d: one edit per prime below
      d[0]. */
  ghost function Diffused(d: seq<Byte>): (r: seq<Byte>)
    requires |d| > 0
    ensures |r| == |d|
  {
    ApplyEdits(d, DiffuseEdits(PrimesBelow(d[0]), |d|))
  }

  /** No prime is a multiple of 32, so the diffusion never touches pool[0]. */
  lemma PrimeNotMultipleOf32(p: nat)
    requires IsPrime(p)
    ensures p % DigestSize != 0
  {
    if p % 32 == 0 {
      var q := p / 32;
      assert p == 2 * (16 * q);
      Bits.ModUnique(p, 2, 16 * q, 0);
      assert Divides(2, p);
      assert false;
    }
  }

  /** The first byte of the digest survives diffusion. */
  lemma DiffusedKeepsFirst(d: seq<Byte>)
    requires |d| == DigestSize
    ensures Diffused(d)[0] == d[0]
  {
    var ps := PrimesBelow(d[0]);
    PrimesBelowSpec(d[0]);
    var es := DiffuseEdits(ps, |d|);
    forall j | 0 <= j < |es|
      ensures es[j].pos != 0
    {
      assert ps[j] in ps;
      PrimeNotMultipleOf32(ps[j]);
    }
  }

  /** A digest whose first byte is at most 2 has no prime below it: the pool is the
      digest itself. */
  lemma DiffusedSmallFirst(d: seq<Byte>)
    requires |d| > 0 && d[0] <= 2
    ensures Diffused(d) == d
  {
    assert PrimesBelow(d[0]) == [];
  }

  /** The diffusion loses nothing: the digest is recovered from the pool alone,
      because the pool's first byte names the primes that were used. */
  ghost function Undiffused(pool: seq<Byte>): (d: seq<Byte>)
    requires |pool| > 0
    ensures |d| == |pool|
  {
    UndoEdits(pool, DiffuseEdits(PrimesBelow(pool[0]), |pool|))
  }

  lemma UndiffuseDiffused(d: seq<Byte>)
    requires |d| == DigestSize
    ensures Undiffused(Diffused(d)) == d
  {
    DiffusedKeepsFirst(d);
    UndoApply(d, DiffuseEdits(PrimesBelow(d[0]), |d|));
  }

  // ---------------------------------------------------------------------------
  // mixin: rotate right by three, then pool[(i + 3) % l] ^= (i ^ (i - 1)) & 0xff

  /** Python's `pool[-3:] + pool[:-3]`; a pool of fewer than three bytes is left
      as it is. */
  function RotateRight3(s: seq<Byte>): (r: seq<Byte>)
    ensures |r| == |s|
    ensures |s| >= 3 ==> forall k :: 0 <= k < |s| ==> r[(k + 3) % |s|] == s[k]
    ensures |s| < 3 ==> r == s
  {
    if |s| < 3 then s
    else
      var r := s[|s| - 3..] + s[..|s| - 3];
      assert forall k :: 0 <= k < |s| ==> r[(k + 3) % |s|] == s[k] by {
        forall k | 0 <= k < |s|
          ensures r[(k + 3) % |s|] == s[k]
        {
          if k + 3 < |s| {
            Bits.ModUnique(k + 3, |s|, 0, k + 3);
          } else {
            Bits.ModUnique(k + 3, |s|, 1, k + 3 - |s|);
          }
        }
      }
      r
  }

  /** The opposite rotation, `pool[3:] + pool[:3]`. */
  function RotateLeft3(s: seq<Byte>): (r: seq<Byte>)
    ensures |r| == |s|
  {
    if |s| < 3 then s else s[3..] + s[..3]
  }

  lemma RotateRoundTrip(s: seq<Byte>)
    ensures RotateLeft3(RotateRight3(s)) == s
    ensures RotateRight3(RotateLeft3(s)) == s
  {
    if |s| >= 3 {
      assert RotateLeft3(RotateRight3(s)) == s[..|s| - 3] + s[|s| - 3..];
      assert s[..|s| - 3] + s[|s| - 3..] == s;
      assert RotateRight3(RotateLeft3(s)) == s[..3] + s[3..];
      assert s[..3] + s[3..] == s;
    }
  }

  /** Python's `(i ^ (i - 1)) & 0xff`. */
  function MixMask(i: int): Byte
  {
    Low8(Xor(i, i - 1))
  }

  /** The number of trailing zero bits of a positive number. */
  function TrailingZeros(i: nat): nat
    requires i > 0
  {
    if i % 2 == 1 then 0 else 1 + TrailingZeros(i / 2)
  }

  lemma {:induction false} XorSelf(x: int)
    ensures Xor(x, x) == 0
    decreases Size(x)
  {
    if !IsSignOnly(x) {
      HalfShrinks(x);
      XorSelf(x / 2);
    }
  }

  /** i ^ (i - 1) sets the lowest set bit of i and every bit below it. */
  lemma {:induction false} XorPredecessor(i: nat)
    requires i > 0
    ensures Xor(i, i - 1) == Pow2(TrailingZeros(i) + 1) - 1
  {
    XorStep(i, i - 1);
    if i % 2 == 1 {
      assert (i - 1) / 2 == i / 2;
      XorSelf(i / 2);
    } else {
      assert (i - 1) / 2 == i / 2 - 1;
      XorPredecessor(i / 2);
    }
  }

  lemma {:induction false} TrailingZerosBound(i: nat)
    requires i > 0
    ensures Pow2(TrailingZeros(i)) <= i
  {
    if i % 2 == 0 {
      TrailingZerosBound(i / 2);
    }
  }

  lemma {:induction false} Pow2Monotone(m: nat, n: nat)
    requires m <= n
    ensures Pow2(m) <= Pow2(n)
    decreases n
  {
    if m < n {
      Pow2Monotone(m, n - 1);
    }
  }

  /** The mask `mixin` XORs in for a content byte i is 2^(t + 1) - 1, t being the
      number of trailing zeros of i, and 0xff for i = 0: one of only eight
      values, 1, 3, 7, ..., 255. */
  lemma MixMaskValue(i: Byte)
    ensures MixMask(i) == if i == 0 then 255 else Pow2(TrailingZeros(i) + 1) - 1
  {
    if i == 0 {
      XorMinusOne(0);
    } else {
      var t := TrailingZeros(i);
      XorPredecessor(i);
      TrailingZerosBound(i);
      if t >= 8 {
        Pow2Monotone(8, t);
        assert false;
      }
      Pow2Monotone(t + 1, 8);
      assert Pow2(8) == 256;
      Bits.ModUnique(Pow2(t + 1) - 1, 256, 0, Pow2(t + 1) - 1);
    }
  }

  function MixEdit(i: Byte, l: nat): (e: Edit)
    requires l > 0
    ensures e.pos < l
  {
    Edit((i + 3) % l, MixMask(i))
  }

  function MixEdits(content: seq<Byte>, l: nat): (es: seq<Edit>)
    requires l > 0
    ensures |es| == |content| && InRange(es, l)
    ensures forall j :: 0 <= j < |content| ==> es[j] == MixEdit(content[j], l)
  {
    seq(|content|, j requires 0 <= j < |content| => MixEdit(content[j], l))
  }

  /** One more content byte makes one more edit. */
  lemma MixEditsSnoc(content: seq<Byte>, l: nat)
    requires l > 0 && |content| > 0
    ensures var n := |content| - 1;
      MixEdits(content, l) == MixEdits(content[..n], l) + [MixEdit(content[n], l)]
  {
    var n := |content| - 1;
    assert forall j :: 0 <= j < n ==> content[..n][j] == content[j];
  }

  /** The pool after `mixin(content)`. */
  function Mixed(pool: seq<Byte>, content: seq<Byte>): (r: seq<Byte>)
    requires |pool| > 0
    ensures |r| == |pool|
  {
    ApplyEdits(RotateRight3(pool), MixEdits(content, |pool|))
  }

  /** `mixin` loses nothing: knowing the content, the old pool comes back. */
  function Unmixed(pool: seq<Byte>, content: seq<Byte>): (r: seq<Byte>)
    requires |pool| > 0
    ensures |r| == |pool|
  {
    RotateLeft3(UndoEdits(pool, MixEdits(content, |pool|)))
  }

  lemma UnmixMixed(pool: seq<Byte>, content: seq<Byte>)
    requires |pool| > 0
    ensures Unmixed(Mixed(pool, content), content) == pool
    ensures Mixed(Unmixed(pool, content), content) == pool
  {
    var es := MixEdits(content, |pool|);
    UndoApply(RotateRight3(pool), es);
    RotateRoundTrip(pool);
    RotateRoundTrip(UndoEdits(pool, es));
    ApplyUndo(pool, es);
  }

  /** A position no content byte points at only moves with the rotation. */
  lemma MixedUntouched(pool: seq<Byte>, content: seq<Byte>, k: nat)
    requires |pool| >= 3 && k < |pool|
    requires forall j :: 0 <= j < |content| ==> (content[j] + 3) % |pool| != (k + 3) % |pool|
    ensures Mixed(pool, content)[(k + 3) % |pool|] == pool[k]
  {
    var es := MixEdits(content, |pool|);
    assert forall j :: 0 <= j < |es| ==> es[j].pos != (k + 3) % |pool|;
  }

  // ---------------------------------------------------------------------------
  // update: struct.unpack('II', pool[0:16:2])

  const Word: nat := 0x1_0000_0000

  /** An unsigned 32-bit integer from four bytes, least significant first. */
  function Unpack32(b0: Byte, b1: Byte, b2: Byte, b3: Byte): (x: nat)
    ensures x < Word
  {
    b0 + 0x100 * b1 + 0x1_0000 * b2 + 0x100_0000 * b3
  }

  /** The four bytes of a 32-bit integer, least significant first. */
  function Pack32(x: nat): (bs: seq<Byte>)
    requires x < Word
    ensures |bs| == 4
  {
    [x % 0x100, x / 0x100 % 0x100, x / 0x1_0000 % 0x100, x / 0x100_0000]
  }

  lemma UnpackPack(x: nat)
    requires x < Word
    ensures var bs := Pack32(x); Unpack32(bs[0], bs[1], bs[2], bs[3]) == x
  {
    var q1, q2, q3 := x / 0x100, x / 0x1_0000, x / 0x100_0000;
    assert q1 / 0x100 == q2 by {
      Bits.ModUnique(q1, 0x100, x / 0x1_0000, q1 % 0x100);
    }
    assert q2 / 0x100 == q3 by {
      Bits.ModUnique(x, 0x1_0000, q2, x % 0x1_0000);
    }
  }

  lemma PackUnpack(b0: Byte, b1: Byte, b2: Byte, b3: Byte)
    ensures Pack32(Unpack32(b0, b1, b2, b3)) == [b0, b1, b2, b3]
  {
    var x := Unpack32(b0, b1, b2, b3);
    Bits.ModUnique(x, 0x100, b1 + 0x100 * b2 + 0x1_0000 * b3, b0);
    Bits.ModUnique(x, 0x1_0000, b2 + 0x100 * b3, b0 + 0x100 * b1);
    Bits.ModUnique(x, 0x100_0000, b3, b0 + 0x100 * b1 + 0x1_0000 * b2);
    Bits.ModUnique(b1 + 0x100 * b2 + 0x1_0000 * b3, 0x100, b2 + 0x100 * b3, b1);
    Bits.ModUnique(b2 + 0x100 * b3, 0x100, b3, b2);
  }

  /** The two words `update` starts from: bytes 0, 2, 4, 6 and 8, 10, 12, 14. */
  function WordA(pool: seq<Byte>): (w: nat)
    requires |pool| >= 16
    ensures w < Word
  {
    Unpack32(pool[0], pool[2], pool[4], pool[6])
  }

  function WordB(pool: seq<Byte>): (w: nat)
    requires |pool| >= 16
    ensures w < Word
  {
    Unpack32(pool[8], pool[10], pool[12], pool[14])
  }
}
