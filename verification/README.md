# BIC counting engine

A Dafny model of the counting engine of SMHasher3's Bit Independence Criterion
(BIC) test, `tests/BitIndependenceTest.cpp`.

For every key bit, the test flips that bit in `reps` random keys. Each time, it
records which output bits of the hash changed: the change-mask, `h1 ^ h2`. Two
vectors hold the counts:

- `popcount`, one counter per (key bit, output bit), counts how often that
  output bit changed;
- `andcount`, one counter per (key bit, output-bit pair `a < b`), counts how
  often both bits changed together.

From these two vectors and `reps`, the full 2x2 contingency table of every
(key bit, a, b) tuple can be rebuilt.

The model covers:

- `Claim` (claim.dfy): the claim loop of `BicTestBatch`. The shared counter is
  advanced by the non-threaded `FETCH_ADD`, and each value below `keybits`
  claims `[start, min(start + batch, keybits))`.
- `Pairs` (pairs.dfy): the triangular layout of an andcount row. Pair `(a, b)`
  sits at `sum_{k<a}(hashbits-1-k) + (b-a-1)`. `PairAt` inverts that position.
  The triangle fits in the row stride `hashbitpairs = hashbits / 2 * hashbits`.
- `Layout` (layout.dfy): the buffer sizes and the row and key-slice offsets
  used by `BicTestBatch` and `BicTestImpl`.
- `Bits` (bits.dfy): digests as bit sequences, the xor of two digests, and
  the flipping of one key bit.
- `Accumulate` (accumulate.dfy):
  - `HistogramHashBits`;
  - the skip-ahead pair scan, proved equal to the naive double loop;
  - the reference counts `CountSet`, `CountBoth` and `CountWhere` over a
    sequence of change-masks.
- `Contingency` (contingency.dfy): the table reconstruction described in the
  comment above `BicTestBatch`.
- `BicTest` (bic.dfy):
  - the repetition loop of one key bit, the key-bit loop of one claimed range,
    and `BicTestBatch` itself;
  - the zero-filled set-up and the one-CPU / many-worker dispatch of
    `BicTestImpl`;
  - the repetition rule and the AND of the two runs in `BicTest`.

The main results:

- Running the engine from zero-filled vectors yields exactly the reference
  vectors whenever a batch runs: with one CPU, or in a build with threads with
  any positive CPU count (the workers are modelled running one after another).
  A build without threads and more than one CPU runs no batch, and the vectors
  stay zero (see below). The reference popcount cell `(k, i)` is
  the number of repetitions in which bit `i` changed. The reference andcount
  cell of pair `(a, b)` is the number in which both changed. The padding after
  each triangle stays zero.
- Every table rebuilt from the reference vectors is the table counted box by
  box. So its boxes are non-negative and sum to `reps`.

Count buffers are sequences of naturals passed in and returned. A write cursor
is an index into such a sequence. The hash under test is a function parameter
from key bytes to a fixed-width digest. The chi-square evaluation
`ReportChiSqIndep` is a function parameter `report` applied to the
configuration and the two vectors.

Two functions the engine calls are not shown in the source file, so their
behaviour is assumed:

- `HistogramHashBits(h, cur, start)` returns `cur + (hashbits - start)`: the
  skip of `hashbits - 1 - out1` entries at line 164, taken instead of the call
  at line 167, forces this cursor advance. Which counter each bit lands in is
  not fixed by the visible lines; the model assumes bit `i >= start` adds one
  to `cur[i - start]`, the placement under which the andcount row holds pair
  `(a, b)` at the position `PairOffset` gives.
- `ExtBlob::flipbit(bit)` toggles bit `bit % 8` of byte `bit / 8`.

The code does not check its configuration, and not every CPU setting runs a
batch:

- Zero repetitions and zero-length keys are not rejected. Every operation here
  is defined for them: a zero-length key has no key bits, and zero
  repetitions leave every count at zero. `hashbits` is `8 * sizeof(hashtype)`,
  so it is at least 8.
- In a build without threads, with more than one CPU configured, the code
  runs no batch at all (lines 198-212). The vectors stay zero and the verdict
  is taken on them. `BicTestImpl` and `BicTest` model this path with a
  `threads` flag. The counts are the same for every CPU count only when one
  CPU is configured, or the build has threads and at least one CPU is
  configured.
- The flipped key bit is never flipped back: the key wraps the corpus in
  place. Each (key bit, repetition) reads its own disjoint slice (`KeysDisjoint`),
  and each key is hashed once before and once after its flip. So hashing a
  flipped copy, as the model does, gives the same masks.
- The claim loop at line 136 ends only because every caller passes a positive
  batch size: line 197 passes `keybits` (when that is 0 the first fetch
  already ends the loop) and line 205 passes 2. With a batch size of 0 and a
  counter below `keybits`, each fetch would hand out the same empty range and
  the loop would never end. `ClaimRanges` and `BicTestBatch` require a
  positive batch size or an exhausted counter for this reason.

## Model

The offset and width definitions are plain functions. Their properties are stated by the lemmas in the rows below:

- `Layout.PopRowBase` (line 141) by `Layout.PopRowsDisjoint`;
- `Layout.AndRowBase` (line 142) by `Layout.AndRowsDisjoint`;
- `Layout.KeySliceBase` and `Layout.KeyOffset` (lines 137, 154) by `Layout.KeyInSlice`, `Layout.SliceEnd`, `Layout.KeyOffsetStep` and `Layout.KeysDisjoint`;
- `Pairs.HashBitPairs` (lines 132, 180) by `Pairs.PairsFitInStride`;
- `Bits.Xor` (line 156) by `Bits.XorClearIffEqual` and `BicTest.ChangeMaskClearIffUnchanged`;
- `Layout.CorpusSize` (line 188) by `Layout.KeyInSlice`, which places every key inside the corpus;
- `Layout.PopcountSize` and `Layout.AndcountSize` (lines 192-193) by `Layout.PopRowsDisjoint` and `Layout.AndRowsDisjoint`, which place every row inside its vector;
- `BicTest.Zeros` (the zero fill of lines 192-193) and `BicTest.BatchesRun` (the dispatch at lines 196-212) by `BicTest.BicTestImpl`;
- `BicTest.Key` (line 150, with the cursor of lines 137 and 154) by `BicTest.Masks` and `Layout.KeyInSlice`.

| member | source | states |
|---|---|---|
| Claim.FetchAdd | tests/BitIndependenceTest.cpp:65 | `(v += n) - n` yields the counter value from before the call and leaves the counter `n` higher |
| Claim.ClaimRanges | tests/BitIndependenceTest.cpp:136-138 | the i-th claim starts at `counter + i*batch`, below `keybits`, and stops at `min(start + batch, keybits)`; after the claims the counter has reached `keybits` |
| Claim.ClaimsOrdered | tests/BitIndependenceTest.cpp:136-138 | every claimed range is non-empty and lies wholly below every later one |
| Claim.ClaimsCoverOnce | tests/BitIndependenceTest.cpp:136-138 | every key bit in `[counter, keybits)` lies in some claim, in no two claims, and no claim reaches outside `[counter, keybits)` |
| Claim.ClaimStep | tests/BitIndependenceTest.cpp:136-140 | one turn of the loop appends exactly the range starting at the value handed out, and the counter stays `batch` past it |
| Claim.SingleClaimTakesAll | tests/BitIndependenceTest.cpp:196-197 | with `batch == keybits` from 0 there is a single claim `[0, keybits)`, and the next claim starts at or beyond `keybits` |
| Claim.ExhaustedCounterClaimsNothing | tests/BitIndependenceTest.cpp:136 | a counter at or past `keybits` claims nothing and ends the loop at once |
| Bits.XorClearIffEqual | tests/BitIndependenceTest.cpp:156 | the change-mask is all clear exactly when the two digests are equal |
| BicTest.ChangeMask | tests/BitIndependenceTest.cpp:150-156 | the change-mask of a key has one bit per output bit, `hashbits` in all |
| BicTest.ChangeMaskClearIffUnchanged | tests/BitIndependenceTest.cpp:150-156 | the change-mask is all clear exactly when flipping the key bit leaves the digest unchanged |
| BicTest.Masks | tests/BitIndependenceTest.cpp:146-156 | a key bit yields one change-mask per repetition, `reps` in all, each `hashbits` bits wide |
| Bits.FlipBit | tests/BitIndependenceTest.cpp:152 | flipping changes the chosen key bit, keeps every other bit and the key length |
| Pairs.PairOffset | tests/BitIndependenceTest.cpp:162-168 | the position of pair `(a, b)` lies inside row `a` of the triangle and inside the triangle |
| Pairs.PairAt | tests/BitIndependenceTest.cpp:162-168 | every triangle position holds a pair `a < b < hashbits` whose position it is |
| Pairs.PairOffsetInjective | tests/BitIndependenceTest.cpp:162-168 | distinct pairs occupy distinct positions |
| Pairs.PairAtOffset | tests/BitIndependenceTest.cpp:162-168 | looking up the position of `(a, b)` gives back `(a, b)` |
| Pairs.PairAtRow | tests/BitIndependenceTest.cpp:162-168 | entry `t` of row `a` holds the pair `(a, a + 1 + t)` |
| Pairs.RowStartClosedForm | tests/BitIndependenceTest.cpp:162-168 | twice the offset of row `a` is `a * (2*hashbits - a - 1)` |
| Pairs.PairCountClosedForm | tests/BitIndependenceTest.cpp:120 | the triangle holds `hashbits*(hashbits-1)/2` pairs, and the scan of rows `0 .. hashbits-2` ends at its end |
| Pairs.PairsFitInStride | tests/BitIndependenceTest.cpp:120-124 | the triangle fits in the row stride `hashbits/2*hashbits`, with `hashbits/2` spare entries for even widths and none for odd widths |
| Layout.PopRowsDisjoint | tests/BitIndependenceTest.cpp:141 | popcount rows of distinct key bits do not overlap, consecutive rows abut, and all lie inside `keybits*hashbits` |
| Layout.AndRowsDisjoint | tests/BitIndependenceTest.cpp:142 | a key bit's triangle stays inside its own andcount row, rows of distinct key bits do not overlap, and all lie inside `keybits*hashbitpairs` |
| Layout.KeyInSlice | tests/BitIndependenceTest.cpp:137-154 | the key of repetition `rep` of key bit `k` lies inside `[k*keybytes*reps, (k+1)*keybytes*reps)`, which lies inside the `keybytes*keybits*reps` corpus |
| Layout.SliceEnd | tests/BitIndependenceTest.cpp:137-154 | after `reps` keys the cursor of key bit `k` stands at the slice of key bit `k + 1` |
| Layout.KeyOffsetStep | tests/BitIndependenceTest.cpp:154 | each repetition moves the key cursor on by one key |
| Layout.KeysDisjoint | tests/BitIndependenceTest.cpp:137-154 | keys of distinct (key bit, repetition) pairs do not overlap |
| Accumulate.HistogramHashBits | tests/BitIndependenceTest.cpp:159 | counter `cur + (i - start)` grows by one exactly when bit `i >= start` is set; nothing else changes; the cursor moves `hashbits - start` |
| Accumulate.AccumulatePairs | tests/BitIndependenceTest.cpp:162-168 | the skip-ahead scan adds one to the cell of pair `(a, b)` exactly when both bits are set, leaves every cell outside the triangle unchanged, and advances the cursor by `hashbits*(hashbits-1)/2` whatever the mask |
| Accumulate.SkipRow | tests/BitIndependenceTest.cpp:164-166 | when bit `a` is clear, skipping row `a` leaves the scan matching the naive double loop through the end of that row |
| Accumulate.ScatterRow | tests/BitIndependenceTest.cpp:167 | when bit `a` is set, scattering bits `a+1 ..` into row `a` adds exactly "both bits set" to each pair `(a, b)` of that row |
| Accumulate.BoxesPartition | tests/BitIndependenceTest.cpp:106-118 | the four boxes counted directly partition the masks; box `[11]` is the joint count, and `[11]+[10]`, `[11]+[01]` are the single-bit counts |
| Contingency.Reconstruct | tests/BitIndependenceTest.cpp:115-118 | the rebuilt boxes sum to the test count and give back the and-count and both popcounts |
| Contingency.ReconstructCountsBoxes | tests/BitIndependenceTest.cpp:106-118 | on counts taken over the masks, the rebuilt table is the table counted box by box, so every box is non-negative and the and-count is at most both popcounts |
| Contingency.NonNegativeIffConsistent | tests/BitIndependenceTest.cpp:115-118 | all rebuilt boxes are non-negative exactly when the and-count is between 0 and both popcounts and the two bits changed at most `testcount` times in all |
| BicTest.AccumulateKeyBit | tests/BitIndependenceTest.cpp:141-168 | the repetition loop adds, to each cell of its key bit's rows, the number of repetitions in which the bit or pair changed; it changes nothing else and leaves the key cursor at the next slice |
| BicTest.ProcessRange | tests/BitIndependenceTest.cpp:137-168 | the key-bit loop of a claimed range accumulates exactly the key bits of the range |
| BicTest.BicTestBatch | tests/BitIndependenceTest.cpp:127-172 | the batch takes exactly the claims of `ClaimRanges`, ends with the counter one batch past the last claim and at least `batch` past `keybits`, and accumulates exactly the key bits from the initial counter to `keybits` |
| BicTest.ExpectedPopcount | tests/BitIndependenceTest.cpp:146-159 | every reference popcount entry is at most `reps` |
| BicTest.ExpectedAndcount | tests/BitIndependenceTest.cpp:146-168 | every reference andcount entry is at most `reps` |
| BicTest.ExpectedPopCell | tests/BitIndependenceTest.cpp:109-111 | reference popcount cell `(k, i)` counts the repetitions in which output bit `i` changed for key bit `k` |
| BicTest.ExpectedPairCell | tests/BitIndependenceTest.cpp:106-107 | reference andcount cell `(k, a, b)` counts the repetitions in which bits `a` and `b` both changed |
| BicTest.ExpectedPadding | tests/BitIndependenceTest.cpp:120-124 | the spare entries after each triangle hold zero |
| BicTest.ExpectedTablesConsistent | tests/BitIndependenceTest.cpp:106-118 | every table rebuilt from the reference vectors has non-negative boxes summing to `reps`, and its and-count is at most both popcounts |
| BicTest.PopFromZero | tests/BitIndependenceTest.cpp:192 | accumulating every key bit into the zero-filled popcount vector gives the reference vector |
| BicTest.AndFromZero | tests/BitIndependenceTest.cpp:193 | accumulating every key bit into the zero-filled andcount vector gives the reference vector |
| BicTest.BicTestImpl | tests/BitIndependenceTest.cpp:174-221 | with one CPU, or with threads and any positive CPU count, the vectors handed to the report are the reference vectors; when no batch starts (no threads and several CPUs, or a CPU count of 0) they stay zero |
| BicTest.RepCount | tests/BitIndependenceTest.cpp:228 | 100000 repetitions for hashes wider than 128 bits or very slow; otherwise the largest `reps` with `reps * bits <= 64000000` |
| BicTest.RepCountBounds | tests/BitIndependenceTest.cpp:228 | every configuration runs between 100000 and 64000000 repetitions, below 2^32, so no 32-bit counter can wrap |
| BicTest.RepCountAntitone | tests/BitIndependenceTest.cpp:228 | a wider fast hash never gets more repetitions |
| BicTest.BicTest | tests/BitIndependenceTest.cpp:226-241 | the verdict is the AND of the report on the 11-byte run and on the 16-byte run, both with the same repetition count; the report sees the reference vectors when a batch runs, zero vectors otherwise |

## Left out

- Threads, `std::atomic` and the join (lines 60-63, 199-211). The threaded
  path is modelled as `ncpu` workers running `BicTestBatch` one after another
  on the shared counter. That is one legal schedule of the atomic
  fetch-add; interleavings are not modelled.
- The hash function, its seed and `hinfo->hashFn`. They are a function
  parameter returning a fixed-width digest.
- HistogramHashBits: its definition is not shown in the source file. The
  model assumes it adds one to `cur[i - start]` for each set bit `i >= start`
  of the mask and returns `cur + (hashbits - start)`; only the cursor advance
  is forced by lines 164 and 167.
- `ExtBlob::flipbit` is not part of this model. It is assumed to toggle bit
  `bit % 8` of byte `bit / 8`.
- `Rand` / `rand_p` key generation and `addVCodeInput` (lines 181, 189-190).
  The key corpus is an input of the right length.
- `ReportChiSqIndep` (line 216). It works in floating point and is not part
  of this model. It is a function parameter `report`. The `verbose` flag
  (lines 176, 216, 226, 235-236) only reaches the report and the printing,
  so it is folded into `report`.
- `printf`, `progressdots`, `recordTestResult`, `malloc`/`free` and the
  `INSTANTIATE` machinery. These are I/O, reporting and allocation.
- Fixed-width integers. Counts, offsets and the counter are unbounded
  naturals. `RepCountBounds` and the `<= reps` bounds show that the 32-bit
  counters never wrap. The offsets are `size_t` values far below their
  range for the 11- and 16-byte keys the test uses.
- RepCount: requires `bits > 0` unless the hash is very slow. With
  `bits == 0` and a fast hash, line 228 divides by zero. A hash's width in
  bits is always positive, so that input cannot occur.
- BicTestImpl, BicTest: the CPU count is a natural. `g_NCPU` is a C `int`,
  and for a negative value the loops at lines 201-209 start no worker, as for
  0 (the thread array at line 201 would then have a negative length, which C++
  leaves undefined). Both are represented by `ncpu == 0`, for which the
  counts stay zero.
