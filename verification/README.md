# chraind in Dafny

`chraind` draws items from a list in a reproducible way that depends on a seed.
A `Chraind` object holds two things:

- an entropy pool: the SHA-256 digest of an initial seed, diffused by the primes below its first byte;
- the list of items, shuffled once when the object is made.

The object offers these operations:

- `update(seed)` mixes the digest of a seed line into the pool, then re-orders the list in ten rounds. Each round cuts the list at two positions computed from the pool, shuffles the middle piece and swaps the outer pieces.
- `choose(n)` takes n items out of the list. It uses the positions given by the primes of rank 7n+1 to 8n.
- All of these run on primes from an incremental 6k±1 wheel sieve, `eratosthenes`, through two wrappers:
  - `primes(x)` gives the first x primes;
  - `primes_under(k)` gives the primes below k.

The model has one file per layer:

| file | module | what it holds |
|---|---|---|
| `bits.dfy` | `Bits` | Python's `^` and `&` on unbounded integers (two's complement) and the byte type |
| `primes.dfy` | `PrimeNumbers` | primality, the 6k±1 wheel, and the reference lists `PrimesBelow(k)` and `Primes(n)` with their properties |
| `sieve.dfy` | `Sieve` | the sieve as a class: the map `D`, the candidate, and `Next` as the generator's resume-to-next-`yield`. `primes` and `primes_under` are loops over it, proved equal to the reference lists |
| `sieve_as_written.dfy` | `SieveAsWritten` | the source's sieve exactly as written, and the proof that it yields the composite 35 (see Findings) |
| `shuffle.dfy` | `Shuffling` | what `shuffle` does to a list, as a function of the list and the primes: it is a permutation, it depends only on the length, plus worked examples |
| `pool.dfy` | `Pool` | the pool as byte edits: the constructor's diffusion, `mixin`'s rotation and masks, the 32-bit unpacking, and the round trips that show nothing is lost |
| `engine.dfy` | `Engine` | the `Chraind` class with its fields `pool` (an array) and `data`. It also holds `update`'s rounds and `choose`'s draws, each proved against a specification function |

The methods of `Chraind` change the object in place as the source does:

- `Shuffle` swaps inside an array.
- `Mixin` and the constructor XOR into the pool array.
- `Update` and `Choose` reassign `data`.

Each method's `ensures` ties the new state to a specification function of the old state. The lemmas then prove what the source promises about those functions: permutation, bounds, the draw without replacement, the round trips, and the count and order of the primes.

Python's semantics are reproduced where they matter:

- simultaneous assignment in `a, b = (a ^ b) % l, (b ^ (a - 1)) % l`;
- floored `%` on the negative value `b ^ -1`;
- `(0 ^ -1) & 0xff == 255`;
- `primes(x)` yields 2 even for `x <= 0`;
- slicing with a negative start in `list(...)[m:]`.

A modulo by an empty list's length raises `ZeroDivisionError` in the source. It is an `ok == false` result here, not a precondition.

## Model

| member | source | states |
|---|---|---|
| `Sieve.NextWheel` | chraind.py:18-19 | the candidate after c in the order a+1, a+5, a+7, ...: the next number above c of the form 6k±1, at most 4 further on, with none skipped |
| `Sieve.NextWheelMultiple` | chraind.py:24-25 | where the corrected sieve moves a witness p of q: the next multiple of p above q on the wheel, with no wheel multiple of p in between |
| `Sieve.Push` | chraind.py:25 | `D.setdefault(k, []).append(p)`: key k gets p appended to its list (created empty if missing), and every other key is unchanged |
| `Sieve.SieveInv` | chraind.py:14-27 | the invariant of the map at candidate c: every key is a wheel number not yet reached, with at least one witness. Every witness is a prime from 5 on below c that divides its key, which is at least its square. Every such prime waits at its next wheel multiple from max(c, p²) on |
| `Sieve.Eratosthenes.constructor` | chraind.py:15-16 | the generator starts with `D = {25: [5]}` and has yielded nothing |
| `Sieve.Eratosthenes.Next` | chraind.py:16-27 | the value yielded is prime and no smaller than the candidate it started from. All values yielded so far are exactly the primes up to it, so the output is strictly increasing and skips no prime |
| `Sieve.Eratosthenes.SkipComposites` | chraind.py:19-26 | passing over the candidates found in `D` yields nothing, keeps the sieve invariant, and stops at a candidate not in `D` |
| `Sieve.Eratosthenes.MoveWitnesses` | chraind.py:23-26 | moving each witness of a composite candidate to its next wheel multiple and deleting its key leaves the sieve invariant holding at the next candidate |
| `Sieve.CandidateIsPrime` | chraind.py:20-21 | under the sieve invariant, a candidate is prime exactly when it is not a key of `D` |
| `Sieve.InitialInv` | chraind.py:15-17 | `D = {25: [5]}` satisfies the sieve invariant at the first wheel candidate 7 |
| `Sieve.SmallPrimes` | chraind.py:16 | 2, 3 and 5, yielded before the wheel starts, are the primes below 7 |
| `Sieve.CompositeGap` | chraind.py:19-27 | stepping from a composite wheel candidate to the next adds no prime: the wheel skips only non-primes |
| `Sieve.PrimeGap` | chraind.py:20-22 | yielding a prime wheel candidate p adds exactly p to the primes below the next candidate |
| `Sieve.FirstPrimes` | chraind.py:29-38 | `primes(x)` is the first x primes for x >= 1, and `[2]` for x <= 0 |
| `Sieve.PrimesUnder` | chraind.py:40-48 | `primes_under(k)` is exactly the primes below k, in increasing order (empty for k <= 2) |
| `Sieve.PrimesUnderStop` | chraind.py:44-48 | stopping at the first prime >= k leaves exactly the primes below k |
| `PrimeNumbers.PrimesBelow` | chraind.py:40-48 | the reference list of the primes below k (specified by `PrimesBelowSpec`) |
| `PrimeNumbers.Primes` | chraind.py:29-38 | the reference list of the first n primes: it has length n (more in `PrimesSpec`) |
| `PrimeNumbers.PrimesBelowSpec` | chraind.py:40-48 | the reference list of primes below k is strictly increasing, and a number is in it exactly when it is a prime below k |
| `PrimeNumbers.PrimesSpec` | chraind.py:29-38 | the reference list of the first n primes holds n primes in strictly increasing order |
| `PrimeNumbers.PrimesBelowArePrefix` | chraind.py:29-48 | the primes below k are the first that-many primes, so `primes` and `primes_under` cut the same sequence |
| `PrimeNumbers.PrimesBelowGap` | chraind.py:44-48 | a range with no prime adds nothing to the primes below a bound |
| `PrimeNumbers.PrimeIsWheel` | chraind.py:19 | every prime from 5 on is of the form 6k+1 or 6k+5, so the wheel's candidates miss no prime |
| `PrimeNumbers.NotWheelNotPrime` | chraind.py:19 | no number from 4 on that is off the wheel is prime |
| `PrimeNumbers.PrimesBelowTwenty` | chraind.py:67 | the primes a four-item shuffle walks, those below 20, are 2, 3, 5, 7, 11, 13, 17, 19 |
| `Shuffling.Swap` | chraind.py:69 | `L[i], L[j] = L[j], L[i]` on a list value: the length is kept (more in `SwapPermutes`) |
| `Shuffling.ShuffleRun` | chraind.py:67-70 | the swaps for a run of primes, the k-th swapping positions k mod l and p mod l. The length is kept |
| `Shuffling.ShuffleSpec` | chraind.py:64-71 | `shuffle(L, N)`: the swaps for the primes below len(L) · N. An empty list draws no prime. The length is kept |
| `Shuffling.SwapPermutes` | chraind.py:69 | `L[i], L[j] = L[j], L[i]` exchanges the two items, leaves every other in place, and keeps the multiset |
| `Shuffling.ShuffleRunPermutes` | chraind.py:67-70 | any run of swaps at prime positions reorders the list without changing its multiset |
| `Shuffling.ShufflePermutes` | chraind.py:64-71 | `shuffle(L)` returns a permutation of `L` |
| `Shuffling.ShuffleSingle` | chraind.py:64-71 | `shuffle` leaves a list of zero or one item unchanged |
| `Shuffling.ShuffleByPositions` | chraind.py:64-71 | the shuffle depends on the length only: each item lands where the same swaps move its position in 0..l-1 |
| `Shuffling.ShuffleSameLength` | chraind.py:64-71 | two lists of the same length are shuffled with the same positions |
| `Shuffling.ShuffleFour` | chraind.py:64-71 | a four-item list `[a, b, c, d]` becomes `[b, d, a, c]`, so `[0, 1, 2, 3]` becomes `[1, 3, 0, 2]` |
| `Bits.Xor` | chraind.py:59 | Python's `x ^ y` on unbounded integers in two's complement (negatives included), one bit at a time (properties in `XorMinusOne`, `XorInvolution`) |
| `Bits.And` | chraind.py:82 | Python's `x & y` on unbounded integers in two's complement (properties in `AndLowMask`) |
| `Bits.XorMinusOne` | chraind.py:95 | `x ^ -1 == -x - 1`, the value `b ^ (a - 1)` takes when `a == 0` |
| `Bits.XorInvolution` | chraind.py:59 | XOR-ing the same value twice restores the byte |
| `Bits.AndLowMask` | chraind.py:59 | `x & (2**n - 1)` is the floored remainder of x by 2**n, for negative x too |
| `Bits.Low8` | chraind.py:59 | `x & 0xff` is `x % 256`, a byte |
| `Bits.XorByte` | chraind.py:59 | the XOR of two bytes is a byte, and XOR-ing back the second gives the first |
| `Pool.Diffused` | chraind.py:56-59 | the pool the constructor builds: the digest with `pool[p % l] ^= (p * (p + 1)) & 0xff` for each prime p below its first byte, in order. The length is kept |
| `Pool.XorAt` | chraind.py:59 | `pool[pos] ^= mask` changes that byte only, and XOR-ing back the mask gives the old byte |
| `Pool.ApplyEdits` | chraind.py:57-59 | a run of edits keeps the length and leaves every position no edit names unchanged |
| `Pool.UndoApply` | chraind.py:57-59 | undoing the edits in reverse order restores the pool |
| `Pool.ApplyUndo` | chraind.py:57-59 | every pool is the result of the edits applied to some pool |
| `Pool.PrimeNotMultipleOf32` | chraind.py:59 | no prime is a multiple of the pool length 32 |
| `Pool.DiffusedKeepsFirst` | chraind.py:56-59 | the diffusion never touches `pool[0]`, so its bound stays readable afterwards |
| `Pool.DiffusedSmallFirst` | chraind.py:56-59 | a digest whose first byte is at most 2 is left unchanged |
| `Pool.UndiffuseDiffused` | chraind.py:56-60 | the diffusion is invertible: the digest comes back from the pool alone |
| `Pool.RotateRight3` | chraind.py:79 | `pool[-3:] + pool[:-3]` moves the byte at k to (k + 3) mod l, and leaves a pool shorter than three unchanged |
| `Pool.RotateRoundTrip` | chraind.py:79 | the opposite rotation undoes it, in both orders |
| `Pool.MixMask` | chraind.py:82 | `(i ^ (i - 1)) & 0xff` (value in `MixMaskValue`) |
| `Pool.MixMaskValue` | chraind.py:82 | `(i ^ (i - 1)) & 0xff` is 255 for i == 0, and otherwise 2^(t + 1) - 1, where t is the number of trailing zero bits of i |
| `Pool.Mixed` | chraind.py:79-82 | the pool after `mixin(content)`: rotated right by three, then one XOR per content byte at (i + 3) mod l, in order. The length is kept |
| `Pool.UnmixMixed` | chraind.py:79-82 | `mixin` loses nothing: knowing the content, the old pool is recovered, and the other way round |
| `Pool.MixedUntouched` | chraind.py:79-82 | a position no content byte points at only moves with the rotation |
| `Pool.Unpack32` | chraind.py:92 | four bytes make an unsigned 32-bit integer |
| `Pool.UnpackPack` | chraind.py:92 | unpacking the four bytes of a 32-bit integer gives it back |
| `Pool.PackUnpack` | chraind.py:92 | packing the unpacked integer gives back the four bytes |
| `Pool.WordA` | chraind.py:92 | the first word of `struct.unpack('II', pool[0:16:2])`: bytes 0, 2, 4, 6, below 2^32 |
| `Pool.WordB` | chraind.py:92 | the second word: bytes 8, 10, 12, 14, below 2^32 |
| `Engine.Round` | chraind.py:95-99 | after a round `0 <= a <= b < l`, and the list keeps its length |
| `Engine.Rounds` | chraind.py:94-99 | the ten rounds of `update` as n rounds in a row. The list keeps its length |
| `Engine.RoundPermutes` | chraind.py:98-99 | `data[b:] + shuffle(data[a:b]) + data[:a]` is a permutation of `data` |
| `Engine.RoundsPermute` | chraind.py:94-99 | any number of rounds only reorders the items |
| `Engine.RoundFromZero` | chraind.py:95 | with `a == 0`, `(b ^ (a - 1)) % l` is `l - 1 - b % l` |
| `Engine.RoundsSingle` | chraind.py:94-99 | a one-item list goes through the rounds unchanged |
| `Engine.SliceFrom` | chraind.py:103 | Python's `s[m:]` takes the last `len(s) - m` items, or the last `-m` items for a negative m, clipped to the list |
| `Engine.DrawPrimes` | chraind.py:102-103 | the primes `choose(n)` draws by: `list(primes(n + 7n))[7n:]` (values in `DrawPrimesCount`) |
| `Engine.DrawPrimesFrom` | chraind.py:102-103 | the slice that `Choose` takes of the first n + 7n primes is `DrawPrimes(n)` |
| `Engine.DrawPrimesCount` | chraind.py:102-103 | for n >= 1, `choose(n)` draws by the n primes of rank 7n+1 to 8n; for n <= 0, by the prime 2 alone |
| `Engine.DrawAll` | chraind.py:104-107 | drawing keeps `len(drawn) + len(rest) == len(data)`; it succeeds exactly when there are no more primes than items, and then draws one item per prime |
| `Engine.DrawPartition` | chraind.py:104-107 | every item ends up either drawn or left, exactly once: a draw without replacement |
| `Engine.Choice` | chraind.py:101-107 | what `choose(n)` does to a list: the draw by `DrawPrimes(n)` |
| `Engine.Chraind.constructor` | chraind.py:51-62 | the pool is the digest diffused by the primes below its first byte, and the caller's list is shuffled in place and becomes `data` |
| `Engine.Chraind.Shuffle` | chraind.py:64-71 | the in-place swap loop leaves the array equal to the shuffle of its old contents |
| `Engine.Chraind.Mixin` | chraind.py:73-82 | the new pool is the old pool rotated right by three, then XOR-ed with each content byte's mask at (i + 3) mod 32. `data` is unchanged |
| `Engine.Chraind.MixInto` | chraind.py:80-82 | `mixin`'s loop: the pool array ends up as its old contents with each content byte's mask XOR-ed in at (i + 3) mod the length, in order |
| `Engine.Chraind.Update` | chraind.py:84-99 | the pool is mixed with the digest. With a non-empty list, `data` becomes the ten rounds from the two words unpacked at bytes 0, 2, ..., 14. An empty list fails after the mix and is left as it was |
| `Engine.Chraind.RunRounds` | chraind.py:94-99 | the ten-round loop computes the ten rounds of the specification |
| `Engine.Chraind.RunRound` | chraind.py:95-99 | one pass of the loop body computes one round of the specification |
| `Engine.Chraind.Choose` | chraind.py:101-107 | `choose(n)` returns the draw by `DrawPrimes(n)` from the old list, leaves `data` as the rest, and fails when the list runs empty. The pool is unchanged |
| `Engine.Chraind.DrawEach` | chraind.py:104-107 | the loop of draws and deletions computes the draw of the specification, stopping with a failure at an empty list |
| `SieveAsWritten.MovedKeyOffWheel` | chraind.py:24-25 | the key `p + q` a witness is moved to is never a wheel candidate |
| `SieveAsWritten.MoveAll` | chraind.py:24-25 | `D.setdefault(p + q, []).append(p)` for each witness in turn. It only adds keys |
| `SieveAsWritten.MoveAllKeys` | chraind.py:24-25 | the moves add exactly one key p + q per witness p |
| `SieveAsWritten.SiftKeys` | chraind.py:19-26 | the map one candidate leaves. A yielded q adds the key q * q with witness list [q]. A composite q gives up its key and adds the keys p + q of its witnesses p, and no others |
| `SieveAsWritten.SiftKeepsWheelKeys` | chraind.py:23-26 | a composite wheel candidate with wheel witnesses leaves every other wheel number marked exactly as before: the moved witnesses never reach a candidate |
| `SieveAsWritten.YieldedFrom` | chraind.py:18-27 | the values yielded from candidate q up to a bound lie between the two |
| `SieveAsWritten.YieldedBelow` | chraind.py:7-27 | what `eratosthenes()` as written yields below k: 2, 3 and 5, then the wheel from 7 with `D = {25: [5]}`. Every value is below k |
| `SieveAsWritten.ReachesThirtyFive` | chraind.py:18-27 | from any candidate up to 35, with only 25 (witness 5) marked, the generator as written reaches 35 and yields it |
| `SieveAsWritten.YieldsComposite` | chraind.py:7-27 | the generator as written yields 35, which is not prime |
| `SieveAsWritten.DiffersFromPrimes` | chraind.py:40-48 | so `primes_under(36)` as written is not the list of primes below 36 |

## Left out

- `main` (chraind.py:109-134) is not modelled. It is argument parsing, file and terminal I/O, and printing.
- SHA-256 (`hasher`, chraind.py:51-56 and 90) is not modelled. The constructor takes the initial seed's digest and `Update` takes the seed line's digest, each as 32 bytes. Passing a different hasher is not modelled.
- `str.strip()` and `str.encode()` (chraind.py:54-55 and 90) are not modelled: the seeds arrive already hashed.
- `struct.unpack('II', ...)` (chraind.py:92) uses the platform's byte order. The model fixes it to little-endian unsigned 32-bit words.
- The generators run eagerly. `Choose` computes all its primes first, then returns the drawn items as a sequence instead of yielding them one by one. A caller who stops iterating early is not modelled.
- The sieve that everything runs on is the corrected one (see Findings). As a result, the model's outputs differ from the source as written in three cases:
  - `shuffle` of a list of 8 items or more, since its bound 5l exceeds 35. This happens in the constructor and in update's rounds.
  - The diffusion of a digest whose first byte exceeds 35.
  - `choose(n)` for n >= 2, since `primes(8n)` reaches the twelfth value.
- Aliasing of the caller's list: the source's `self.data` is the very list passed to `__init__`, so a later `choose` without an `update` deletes from the caller's list too. `Engine.Chraind.constructor` shuffles the caller's array in place but keeps a copy of its contents in `data`.
- `Engine.Chraind.Mixin` takes a sequence of bytes, while the source's docstring allows any list of integers. Its only caller passes a digest's bytes (chraind.py:91). The source's default arguments `N = 5` (chraind.py:64) and `how_many = 1` (chraind.py:101) are passed explicitly: `Shuffle` is always called with 5, and `Choose` always takes its count.
- A raised `ZeroDivisionError` becomes `ok == false`. In `Choose`, the items drawn before the list ran empty are still returned, and `data` is empty.

## Findings

| source | as written | input that shows it | evidently intended | confidence | as-written member | corrected member |
|---|---|---|---|---|---|---|
| chraind.py:24-25 | a witness p of the composite q is moved to `p + q`. Both p and q are 6k±1, so `p + q` is even and never a candidate: every witness is lost after its first hit | `primes_under(36)` yields 35 (= 5 · 7, the twelfth value), because 5 left 25 for 30. 55, 65, ... follow | move each witness to its next multiple on the wheel, q + 2p or q + 4p, as the comment on line 24 says ("its next multiple") | not executed | `SieveAsWritten.YieldsComposite` | `Sieve.PrimesUnder` |
