/**
  The BIC counting engine: `BicTestBatch`, the buffer set-up of `BicTestImpl`
  and the repetition rule and aggregation of `BicTest`.

  The hash under test is a total function from key bytes to a digest of
  `hashbits` bits (its seed is fixed for the whole test). The chi-square
  evaluation `ReportChiSqIndep` is a function parameter `report` from the
  configuration and the two count vectors to the verdict.
 */
module BicTest {
  import opened Bits
  import opened Claim
  import opened Pairs
  import opened Layout
  import opened Accumulate
  import opened Contingency
  import opened Arith

  /** The hash returns `hashbits`-bit digests for every key. */
  ghost predicate FixedWidth(hash: seq<byte> -> Mask, hashbits: nat)
  {
    forall key :: |hash(key)| == hashbits
  }

  /** Which output bits change when bit `keybit` of `key` is flipped: hash, flip, hash again and
      xor the digests. */
  function ChangeMask(hash: seq<byte> -> Mask, hashbits: nat, key: seq<byte>, keybit: nat): (m: Mask)
    requires FixedWidth(hash, hashbits) && keybit < 8 * |key|
    ensures |m| == hashbits
  {
    Xor(hash(key), hash(FlipBit(key, keybit)))
  }

  /** The change-mask is all clear exactly when flipping the bit leaves the digest as it was. */
  lemma ChangeMaskClearIffUnchanged(hash: seq<byte> -> Mask, hashbits: nat, key: seq<byte>, keybit: nat)
    requires FixedWidth(hash, hashbits) && keybit < 8 * |key|
    ensures AllClear(ChangeMask(hash, hashbits, key, keybit)) <==> hash(key) == hash(FlipBit(key, keybit))
  {
    XorClearIffEqual(hash(key), hash(FlipBit(key, keybit)));
  }

  /** The key hashed in repetition `rep` of key bit `keybit`. */
  function Key(cfg: Config, keys: seq<byte>, keybit: nat, rep: nat): (key: seq<byte>)
    requires |keys| == CorpusSize(cfg) && keybit < cfg.KeyBits() && rep < cfg.reps
    ensures |key| == cfg.keybytes
  {
    KeyInSlice(cfg, keybit, rep);
    keys[KeyOffset(cfg, keybit, rep) .. KeyOffset(cfg, keybit, rep) + cfg.keybytes]
  }

  /** The `reps` change-masks observed for key bit `keybit`, in repetition order. */
  function Masks(cfg: Config, hash: seq<byte> -> Mask, keys: seq<byte>, keybit: nat): (ms: seq<Mask>)
    requires FixedWidth(hash, cfg.HashBits())
    requires |keys| == CorpusSize(cfg) && keybit < cfg.KeyBits()
    ensures |ms| == cfg.reps
    ensures forall r :: 0 <= r < |ms| ==> |ms[r]| == cfg.HashBits()
  {
    seq(cfg.reps, r requires 0 <= r < cfg.reps =>
      ChangeMask(hash, cfg.HashBits(), Key(cfg, keys, keybit, r), keybit))
  }

  /** Popcount counter of output bit `i` for key bit `keybit`. */
  function PopCell(cfg: Config, pop: seq<nat>, keybit: nat, i: nat): nat
    requires |pop| == PopcountSize(cfg) && keybit < cfg.KeyBits() && i < cfg.HashBits()
  {
    PopRowsDisjoint(cfg, keybit, cfg.KeyBits());
    pop[PopRowBase(cfg, keybit) + i]
  }

  /** Entry `t` of key bit `keybit`'s andcount row (triangle or padding). */
  function AndCell(cfg: Config, andc: seq<nat>, keybit: nat, t: nat): nat
    requires |andc| == AndcountSize(cfg) && keybit < cfg.KeyBits() && t < HashBitPairs(cfg.HashBits())
  {
    AndRowsDisjoint(cfg, keybit, cfg.KeyBits());
    andc[AndRowBase(cfg, keybit) + t]
  }

  /** Andcount counter of the output-bit pair `(a, b)` for key bit `keybit`. */
  function PairCell(cfg: Config, andc: seq<nat>, keybit: nat, a: nat, b: nat): nat
    requires |andc| == AndcountSize(cfg) && keybit < cfg.KeyBits() && a < b < cfg.HashBits()
  {
    PairsFitInStride(cfg.HashBits());
    AndCell(cfg, andc, keybit, PairOffset(cfg.HashBits(), a, b))
  }

  /** Count held by popcount cell `j` of a row starting at `base` after the masks `ms`. */
  function RowCount(ms: seq<Mask>, w: nat, base: nat, j: nat): nat
    requires forall r :: 0 <= r < |ms| ==> |ms[r]| == w
  {
    if base <= j < base + w then CountSet(ms, j - base) else 0
  }

  /** Count held by andcount cell `j` of a triangle starting at `base` after the masks `ms`. */
  function TriangleCount(ms: seq<Mask>, w: nat, base: nat, j: nat): nat
    requires forall r :: 0 <= r < |ms| ==> |ms[r]| == w
  {
    if base <= j < base + PairCount(w) then
      var p := PairAt(w, j - base);
      CountBoth(ms, p.0, p.1)
    else 0
  }

  /** One more mask adds its scattered bits to the popcount row. */
  lemma RowCountSnoc(ms: seq<Mask>, n: nat, w: nat, base: nat, j: nat)
    requires n < |ms| && forall r :: 0 <= r < |ms| ==> |ms[r]| == w
    ensures RowCount(ms[..n + 1], w, base, j) == RowCount(ms[..n], w, base, j) + ScatterInc(ms[n], 0, base, w, j)
  {
    if base <= j < base + w {
      CountsSnoc(ms, n, j - base, j - base);
    }
  }

  /** One more mask adds its pair increments to the andcount triangle. */
  lemma TriangleCountSnoc(ms: seq<Mask>, n: nat, w: nat, base: nat, j: nat)
    requires n < |ms| && forall r :: 0 <= r < |ms| ==> |ms[r]| == w
    ensures TriangleCount(ms[..n + 1], w, base, j) == TriangleCount(ms[..n], w, base, j) + PairInc(ms[n], base, PairCount(w), j)
  {
    if base <= j < base + PairCount(w) {
      var p := PairAt(w, j - base);
      CountsSnoc(ms, n, p.0, p.1);
    }
  }

  /** `pop1` is `pop0` with, for every key bit `k` in `[lo, hi)` and output bit `i`, the number
      of repetitions in which bit `i` changed added to cell `(k, i)`; every cell outside the rows
      of `[lo, hi)` is unchanged. */
  ghost predicate PopAccumulated(cfg: Config, hash: seq<byte> -> Mask, keys: seq<byte>,
                                 pop0: seq<nat>, pop1: seq<nat>, lo: nat, hi: nat)
    requires cfg.Valid() && FixedWidth(hash, cfg.HashBits()) && |keys| == CorpusSize(cfg)
  {
    && |pop0| == PopcountSize(cfg) && |pop1| == PopcountSize(cfg)
    && lo <= hi <= cfg.KeyBits()
    && (forall k, i :: lo <= k < hi && 0 <= i < cfg.HashBits() ==>
          PopCell(cfg, pop1, k, i) == PopCell(cfg, pop0, k, i) + CountSet(Masks(cfg, hash, keys, k), i))
    && (forall j :: 0 <= j < |pop0| && !(PopRowBase(cfg, lo) <= j < PopRowBase(cfg, hi)) ==> pop1[j] == pop0[j])
  }

  /** `andc1` is `andc0` with, for every key bit `k` in `[lo, hi)` and pair `a < b`, the number of
      repetitions in which both bits changed added to cell `(k, a, b)`; the padding after each
      triangle and every cell outside the rows of `[lo, hi)` is unchanged. */
  ghost predicate AndAccumulated(cfg: Config, hash: seq<byte> -> Mask, keys: seq<byte>,
                                 andc0: seq<nat>, andc1: seq<nat>, lo: nat, hi: nat)
    requires cfg.Valid() && FixedWidth(hash, cfg.HashBits()) && |keys| == CorpusSize(cfg)
  {
    && |andc0| == AndcountSize(cfg) && |andc1| == AndcountSize(cfg)
    && lo <= hi <= cfg.KeyBits()
    && (forall k, a, b :: lo <= k < hi && 0 <= a < b < cfg.HashBits() ==>
          PairCell(cfg, andc1, k, a, b) == PairCell(cfg, andc0, k, a, b) + CountBoth(Masks(cfg, hash, keys, k), a, b))
    && (forall k, t :: lo <= k < hi && PairCount(cfg.HashBits()) <= t < HashBitPairs(cfg.HashBits()) ==>
          AndCell(cfg, andc1, k, t) == AndCell(cfg, andc0, k, t))
    && (forall j :: 0 <= j < |andc0| && !(AndRowBase(cfg, lo) <= j < AndRowBase(cfg, hi)) ==> andc1[j] == andc0[j])
  }

  /** A popcount cell of a key bit outside `[lo, hi)` lies outside the rows of `[lo, hi)`. */
  lemma PopFrame(cfg: Config, pop0: seq<nat>, pop1: seq<nat>, lo: nat, hi: nat, k: nat, i: nat)
    requires |pop0| == PopcountSize(cfg) && |pop1| == PopcountSize(cfg)
    requires lo <= hi <= cfg.KeyBits() && k < cfg.KeyBits() && i < cfg.HashBits() && !(lo <= k < hi)
    requires forall j :: 0 <= j < |pop0| && !(PopRowBase(cfg, lo) <= j < PopRowBase(cfg, hi)) ==> pop1[j] == pop0[j]
    ensures PopCell(cfg, pop1, k, i) == PopCell(cfg, pop0, k, i)
  {
    var j := PopRowBase(cfg, k) + i;
    PopRowsDisjoint(cfg, k, cfg.KeyBits());
    if k < lo {
      PopRowsDisjoint(cfg, k, lo);
    } else {
      PopRowBaseMonotone(cfg, hi, k);
    }
    assert !(PopRowBase(cfg, lo) <= j < PopRowBase(cfg, hi));
    assert pop1[j] == pop0[j];
  }

  /** An andcount cell of a key bit outside `[lo, hi)` lies outside the rows of `[lo, hi)`. */
  lemma AndFrame(cfg: Config, andc0: seq<nat>, andc1: seq<nat>, lo: nat, hi: nat, k: nat, t: nat)
    requires |andc0| == AndcountSize(cfg) && |andc1| == AndcountSize(cfg)
    requires lo <= hi <= cfg.KeyBits() && k < cfg.KeyBits() && t < HashBitPairs(cfg.HashBits()) && !(lo <= k < hi)
    requires forall j :: 0 <= j < |andc0| && !(AndRowBase(cfg, lo) <= j < AndRowBase(cfg, hi)) ==> andc1[j] == andc0[j]
    ensures AndCell(cfg, andc1, k, t) == AndCell(cfg, andc0, k, t)
  {
    var j := AndRowBase(cfg, k) + t;
    AndRowsDisjoint(cfg, k, cfg.KeyBits());
    if k < lo {
      AndRowsDisjoint(cfg, k, lo);
    } else {
      AndRowBaseMonotone(cfg, hi, k);
    }
    assert !(AndRowBase(cfg, lo) <= j < AndRowBase(cfg, hi));
    assert andc1[j] == andc0[j];
  }

  /** Accumulating `[lo, mid)` and then `[mid, hi)` accumulates `[lo, hi)`. */
  lemma PopAccumulatedTrans(cfg: Config, hash: seq<byte> -> Mask, keys: seq<byte>,
                            pop0: seq<nat>, pop1: seq<nat>, pop2: seq<nat>, lo: nat, mid: nat, hi: nat)
    requires cfg.Valid() && FixedWidth(hash, cfg.HashBits()) && |keys| == CorpusSize(cfg)
    requires PopAccumulated(cfg, hash, keys, pop0, pop1, lo, mid)
    requires PopAccumulated(cfg, hash, keys, pop1, pop2, mid, hi)
    ensures PopAccumulated(cfg, hash, keys, pop0, pop2, lo, hi)
  {
    forall k, i | lo <= k < hi && 0 <= i < cfg.HashBits()
      ensures PopCell(cfg, pop2, k, i) == PopCell(cfg, pop0, k, i) + CountSet(Masks(cfg, hash, keys, k), i)
    {
      if k < mid {
        PopFrame(cfg, pop1, pop2, mid, hi, k, i);
      } else {
        PopFrame(cfg, pop0, pop1, lo, mid, k, i);
      }
    }
    PopRowBaseMonotone(cfg, lo, mid);
    PopRowBaseMonotone(cfg, mid, hi);
  }

  /** Accumulating `[lo, mid)` and then `[mid, hi)` accumulates `[lo, hi)`. */
  lemma AndAccumulatedTrans(cfg: Config, hash: seq<byte> -> Mask, keys: seq<byte>,
                            andc0: seq<nat>, andc1: seq<nat>, andc2: seq<nat>, lo: nat, mid: nat, hi: nat)
    requires cfg.Valid() && FixedWidth(hash, cfg.HashBits()) && |keys| == CorpusSize(cfg)
    requires AndAccumulated(cfg, hash, keys, andc0, andc1, lo, mid)
    requires AndAccumulated(cfg, hash, keys, andc1, andc2, mid, hi)
    ensures AndAccumulated(cfg, hash, keys, andc0, andc2, lo, hi)
  {
    var hashbits := cfg.HashBits();
    PairsFitInStride(hashbits);
    forall k, a, b | lo <= k < hi && 0 <= a < b < hashbits
      ensures PairCell(cfg, andc2, k, a, b) == PairCell(cfg, andc0, k, a, b) + CountBoth(Masks(cfg, hash, keys, k), a, b)
    {
      if k < mid {
        AndFrame(cfg, andc1, andc2, mid, hi, k, PairOffset(hashbits, a, b));
      } else {
        AndFrame(cfg, andc0, andc1, lo, mid, k, PairOffset(hashbits, a, b));
      }
    }
    forall k, t | lo <= k < hi && PairCount(hashbits) <= t < HashBitPairs(hashbits)
      ensures AndCell(cfg, andc2, k, t) == AndCell(cfg, andc0, k, t)
    {
      if k < mid {
        AndFrame(cfg, andc1, andc2, mid, hi, k, t);
      } else {
        AndFrame(cfg, andc0, andc1, lo, mid, k, t);
      }
    }
    AndRowBaseMonotone(cfg, lo, mid);
    AndRowBaseMonotone(cfg, mid, hi);
  }

  /** The repetition loop of one key bit (the body of the key-bit loop in `BicTestBatch`).
      Repetition `rep` hashes the key at `KeySliceBase(keybit) + rep * keybytes` and its
      copy with bit `keybit` flipped, then accumulates the change-mask. Afterwards the counts of
      this one key bit have been added and nothing else has changed; the key cursor stands at
      the next key bit's slice. */
  method AccumulateKeyBit(cfg: Config, hash: seq<byte> -> Mask, keys: seq<byte>, keybit: nat,
                          keyCursor: nat, pop: seq<nat>, andc: seq<nat>)
    returns (pop': seq<nat>, andc': seq<nat>, keyCursor': nat)
    requires cfg.Valid() && FixedWidth(hash, cfg.HashBits())
    requires |keys| == CorpusSize(cfg) && |pop| == PopcountSize(cfg) && |andc| == AndcountSize(cfg)
    requires keybit < cfg.KeyBits() && keyCursor == KeySliceBase(cfg, keybit)
    ensures keyCursor' == KeySliceBase(cfg, keybit + 1)
    ensures PopAccumulated(cfg, hash, keys, pop, pop', keybit, keybit + 1)
    ensures AndAccumulated(cfg, hash, keys, andc, andc', keybit, keybit + 1)
  {
    var hashbits := cfg.HashBits();
    var popBase := PopRowBase(cfg, keybit);
    var andBase := AndRowBase(cfg, keybit);
    ghost var ms := Masks(cfg, hash, keys, keybit);
    PopRowsDisjoint(cfg, keybit, cfg.KeyBits());
    AndRowsDisjoint(cfg, keybit, cfg.KeyBits());
    SliceEnd(cfg, keybit);
    pop', andc', keyCursor' := pop, andc, keyCursor;
    var irep := 0;
    while irep < cfg.reps
      invariant irep <= cfg.reps
      invariant keyCursor' == KeyOffset(cfg, keybit, irep)
      invariant |pop'| == |pop| && |andc'| == |andc|
      invariant forall j :: 0 <= j < |pop| ==> pop'[j] == pop[j] + RowCount(ms[..irep], hashbits, popBase, j)
      invariant forall j :: 0 <= j < |andc| ==> andc'[j] == andc[j] + TriangleCount(ms[..irep], hashbits, andBase, j)
    {
      KeyInSlice(cfg, keybit, irep);
      var key := keys[keyCursor' .. keyCursor' + cfg.keybytes];
      var h1 := hash(key);
      var h2 := hash(FlipBit(key, keybit));
      var mask := Xor(h1, h2);
      assert mask == ms[irep];
      ghost var pop0, andc0 := pop', andc';
      var popCursor, andCursor;
      pop', popCursor := HistogramHashBits(pop', popBase, mask, 0);
      andc', andCursor := AccumulatePairs(andc', andBase, mask);
      forall j | 0 <= j < |pop|
        ensures pop'[j] == pop[j] + RowCount(ms[..irep + 1], hashbits, popBase, j)
      {
        RowCountSnoc(ms, irep, hashbits, popBase, j);
      }
      forall j | 0 <= j < |andc|
        ensures andc'[j] == andc[j] + TriangleCount(ms[..irep + 1], hashbits, andBase, j)
      {
        TriangleCountSnoc(ms, irep, hashbits, andBase, j);
      }
      KeyOffsetStep(cfg, keybit, irep);
      irep := irep + 1;
      keyCursor' := keyCursor' + cfg.keybytes;
    }
    assert ms[..irep] == ms;
    PopRowAccumulated(cfg, hash, keys, keybit, pop, pop');
    AndRowAccumulated(cfg, hash, keys, keybit, andc, andc');
  }

  /** A popcount vector whose key-bit row has grown by the row counts, and nothing else,
      has had exactly that key bit accumulated. */
  lemma PopRowAccumulated(cfg: Config, hash: seq<byte> -> Mask, keys: seq<byte>, keybit: nat,
                          pop: seq<nat>, pop': seq<nat>)
    requires cfg.Valid() && FixedWidth(hash, cfg.HashBits()) && |keys| == CorpusSize(cfg)
    requires keybit < cfg.KeyBits() && |pop| == PopcountSize(cfg) && |pop'| == |pop|
    requires forall j :: 0 <= j < |pop| ==>
               pop'[j] == pop[j] + RowCount(Masks(cfg, hash, keys, keybit), cfg.HashBits(), PopRowBase(cfg, keybit), j)
    ensures PopAccumulated(cfg, hash, keys, pop, pop', keybit, keybit + 1)
  {
    RowCells(cfg, Masks(cfg, hash, keys, keybit), keybit, pop, pop');
    RowOutside(cfg, Masks(cfg, hash, keys, keybit), keybit, pop, pop');
  }

  /** Each output-bit cell of a key-bit row grown by the row counts of `ms` has grown by the
      number of masks with that bit set. */
  lemma RowCells(cfg: Config, ms: seq<Mask>, keybit: nat, pop: seq<nat>, pop': seq<nat>)
    requires forall r :: 0 <= r < |ms| ==> |ms[r]| == cfg.HashBits()
    requires keybit < cfg.KeyBits() && |pop| == PopcountSize(cfg) && |pop'| == |pop|
    requires forall j :: 0 <= j < |pop| ==>
               pop'[j] == pop[j] + RowCount(ms, cfg.HashBits(), PopRowBase(cfg, keybit), j)
    ensures forall i :: 0 <= i < cfg.HashBits() ==>
              PopCell(cfg, pop', keybit, i) == PopCell(cfg, pop, keybit, i) + CountSet(ms, i)
  {
    var base := PopRowBase(cfg, keybit);
    PopRowsDisjoint(cfg, keybit, cfg.KeyBits());
    forall i | 0 <= i < cfg.HashBits()
      ensures PopCell(cfg, pop', keybit, i) == PopCell(cfg, pop, keybit, i) + CountSet(ms, i)
    {
      assert pop'[base + i] == pop[base + i] + RowCount(ms, cfg.HashBits(), base, base + i);
    }
  }

  /** Growing one key-bit row by the row counts leaves every cell outside that row as it was. */
  lemma RowOutside(cfg: Config, ms: seq<Mask>, keybit: nat, pop: seq<nat>, pop': seq<nat>)
    requires forall r :: 0 <= r < |ms| ==> |ms[r]| == cfg.HashBits()
    requires |pop'| == |pop|
    requires forall j :: 0 <= j < |pop| ==>
               pop'[j] == pop[j] + RowCount(ms, cfg.HashBits(), PopRowBase(cfg, keybit), j)
    ensures forall j :: 0 <= j < |pop| && !(PopRowBase(cfg, keybit) <= j < PopRowBase(cfg, keybit + 1)) ==>
              pop'[j] == pop[j]
  {
    PopRowsDisjoint(cfg, keybit, keybit + 1);
  }

  /** An andcount vector whose key-bit triangle has grown by the pair counts, and nothing else,
      has had exactly that key bit accumulated. */
  lemma AndRowAccumulated(cfg: Config, hash: seq<byte> -> Mask, keys: seq<byte>, keybit: nat,
                          andc: seq<nat>, andc': seq<nat>)
    requires cfg.Valid() && FixedWidth(hash, cfg.HashBits()) && |keys| == CorpusSize(cfg)
    requires keybit < cfg.KeyBits() && |andc| == AndcountSize(cfg) && |andc'| == |andc|
    requires forall j :: 0 <= j < |andc| ==>
               andc'[j] == andc[j] + TriangleCount(Masks(cfg, hash, keys, keybit), cfg.HashBits(), AndRowBase(cfg, keybit), j)
    ensures AndAccumulated(cfg, hash, keys, andc, andc', keybit, keybit + 1)
  {
    TriangleCells(cfg, Masks(cfg, hash, keys, keybit), keybit, andc, andc');
  }

  /** The cells of a key-bit triangle grown by the pair counts of `ms`: each pair cell by its
      count, the padding and everything outside the triangle not at all. */
  lemma TriangleCells(cfg: Config, ms: seq<Mask>, keybit: nat, andc: seq<nat>, andc': seq<nat>)
    requires forall r :: 0 <= r < |ms| ==> |ms[r]| == cfg.HashBits()
    requires keybit < cfg.KeyBits() && |andc| == AndcountSize(cfg) && |andc'| == |andc|
    requires forall j :: 0 <= j < |andc| ==>
               andc'[j] == andc[j] + TriangleCount(ms, cfg.HashBits(), AndRowBase(cfg, keybit), j)
    ensures forall a, b :: 0 <= a < b < cfg.HashBits() ==>
              PairCell(cfg, andc', keybit, a, b) == PairCell(cfg, andc, keybit, a, b) + CountBoth(ms, a, b)
    ensures forall t :: PairCount(cfg.HashBits()) <= t < HashBitPairs(cfg.HashBits()) ==>
              AndCell(cfg, andc', keybit, t) == AndCell(cfg, andc, keybit, t)
    ensures forall j :: 0 <= j < |andc| && !(AndRowBase(cfg, keybit) <= j < AndRowBase(cfg, keybit + 1)) ==>
              andc'[j] == andc[j]
  {
    var hashbits := cfg.HashBits();
    var base := AndRowBase(cfg, keybit);
    PairsFitInStride(hashbits);
    AndRowsDisjoint(cfg, keybit, keybit + 1);
    forall a, b | 0 <= a < b < hashbits
      ensures PairCell(cfg, andc', keybit, a, b) == PairCell(cfg, andc, keybit, a, b) + CountBoth(ms, a, b)
    {
      var t := PairOffset(hashbits, a, b);
      PairAtOffset(hashbits, a, b);
      assert andc'[base + t] == andc[base + t] + TriangleCount(ms, hashbits, base, base + t);
    }
    forall t | PairCount(hashbits) <= t < HashBitPairs(hashbits)
      ensures AndCell(cfg, andc', keybit, t) == AndCell(cfg, andc, keybit, t)
    {
      assert andc'[base + t] == andc[base + t] + TriangleCount(ms, hashbits, base, base + t);
    }
  }

  /** The key-bit loop of one claimed range `[start, stop)`. The key cursor starts at
      `start * keybytes * reps` and advances `keybytes` per repetition, so every key bit `k`
      of the range reads its own slice `[k * keybytes * reps, (k + 1) * keybytes * reps)`.
      Afterwards the counts of exactly the key bits of the range have been added. */
  method ProcessRange(cfg: Config, hash: seq<byte> -> Mask, keys: seq<byte>, start: nat, stop: nat,
                      pop: seq<nat>, andc: seq<nat>)
    returns (pop': seq<nat>, andc': seq<nat>)
    requires cfg.Valid() && FixedWidth(hash, cfg.HashBits())
    requires |keys| == CorpusSize(cfg) && |pop| == PopcountSize(cfg) && |andc| == AndcountSize(cfg)
    requires start <= stop <= cfg.KeyBits()
    ensures PopAccumulated(cfg, hash, keys, pop, pop', start, stop)
    ensures AndAccumulated(cfg, hash, keys, andc, andc', start, stop)
  {
    var keyCursor := KeySliceBase(cfg, start);
    pop', andc' := pop, andc;
    var keybit := start;
    while keybit < stop
      invariant start <= keybit <= stop
      invariant keyCursor == KeySliceBase(cfg, keybit)
      invariant PopAccumulated(cfg, hash, keys, pop, pop', start, keybit)
      invariant AndAccumulated(cfg, hash, keys, andc, andc', start, keybit)
    {
      ghost var pop0, andc0 := pop', andc';
      pop', andc', keyCursor := AccumulateKeyBit(cfg, hash, keys, keybit, keyCursor, pop', andc');
      PopAccumulatedTrans(cfg, hash, keys, pop, pop0, pop', start, keybit, keybit + 1);
      AndAccumulatedTrans(cfg, hash, keys, andc, andc0, andc', start, keybit, keybit + 1);
      keybit := keybit + 1;
    }
  }

  /** `BicTestBatch`: claims ranges from the shared counter until a claim starts at or beyond
      `keybits`, and processes each claimed range. It returns the final counter and, as a
      trace, the ranges it claimed: exactly `ClaimRanges(counter, batch, keybits)`, after which
      the counter has advanced once more than there were claims. Every key bit from the
      initial counter up to `keybits` has its counts added, and nothing else changes. */
  method BicTestBatch(cfg: Config, hash: seq<byte> -> Mask, keys: seq<byte>, counter: nat, batch: nat,
                      pop: seq<nat>, andc: seq<nat>)
    returns (counter': nat, claims: seq<Range>, pop': seq<nat>, andc': seq<nat>)
    requires cfg.Valid() && FixedWidth(hash, cfg.HashBits())
    requires |keys| == CorpusSize(cfg) && |pop| == PopcountSize(cfg) && |andc| == AndcountSize(cfg)
    requires batch > 0 || counter >= cfg.KeyBits()
    ensures claims == ClaimRanges(counter, batch, cfg.KeyBits())
    ensures counter' == counter + (|claims| + 1) * batch
    ensures counter' - batch >= cfg.KeyBits()
    ensures PopAccumulated(cfg, hash, keys, pop, pop', Min(counter, cfg.KeyBits()), cfg.KeyBits())
    ensures AndAccumulated(cfg, hash, keys, andc, andc', Min(counter, cfg.KeyBits()), cfg.KeyBits())
  {
    var keybits := cfg.KeyBits();
    var lo := Min(counter, keybits);
    pop', andc' := pop, andc;
    PopAccumulatedRefl(cfg, hash, keys, pop, lo);
    AndAccumulatedRefl(cfg, hash, keys, andc, lo);
    claims := [];
    var start: nat;
    var claim := FetchAdd(counter, batch);
    counter', start := claim.0, claim.1;
    assert claims + ClaimRanges(start, batch, keybits) == ClaimRanges(counter, batch, keybits);
    while start < keybits
      invariant counter' == start + batch
      invariant start == counter + |claims| * batch
      invariant claims + ClaimRanges(start, batch, keybits) == ClaimRanges(counter, batch, keybits)
      invariant PopAccumulated(cfg, hash, keys, pop, pop', lo, Min(start, keybits))
      invariant AndAccumulated(cfg, hash, keys, andc, andc', lo, Min(start, keybits))
      decreases keybits - start
    {
      var stop := Min(start + batch, keybits);
      ghost var pop0, andc0 := pop', andc';
      pop', andc' := ProcessRange(cfg, hash, keys, start, stop, pop', andc');
      PopAccumulatedTrans(cfg, hash, keys, pop, pop0, pop', lo, start, stop);
      AndAccumulatedTrans(cfg, hash, keys, andc, andc0, andc', lo, start, stop);
      ClaimStep(counter, batch, keybits, claims, start);
      claims := claims + [Range(start, stop)];
      claim := FetchAdd(counter', batch);
      counter', start := claim.0, claim.1;
    }
  }

  /** Accumulating the empty range `[k, k)` changes nothing, and nothing else satisfies it. */
  lemma PopAccumulatedRefl(cfg: Config, hash: seq<byte> -> Mask, keys: seq<byte>, pop: seq<nat>, k: nat)
    requires cfg.Valid() && FixedWidth(hash, cfg.HashBits()) && |keys| == CorpusSize(cfg)
    requires |pop| == PopcountSize(cfg) && k <= cfg.KeyBits()
    ensures PopAccumulated(cfg, hash, keys, pop, pop, k, k)
    ensures forall pop' :: PopAccumulated(cfg, hash, keys, pop, pop', k, k) ==> pop' == pop
  {
  }

  /** Accumulating the empty range `[k, k)` changes nothing, and nothing else satisfies it. */
  lemma AndAccumulatedRefl(cfg: Config, hash: seq<byte> -> Mask, keys: seq<byte>, andc: seq<nat>, k: nat)
    requires cfg.Valid() && FixedWidth(hash, cfg.HashBits()) && |keys| == CorpusSize(cfg)
    requires |andc| == AndcountSize(cfg) && k <= cfg.KeyBits()
    ensures AndAccumulated(cfg, hash, keys, andc, andc, k, k)
    ensures forall andc' :: AndAccumulated(cfg, hash, keys, andc, andc', k, k) ==> andc' == andc
  {
  }

  /** The reference popcount vector: entry `keybit * hashbits + i` is the number of
      repetitions in which output bit `i` changed when key bit `keybit` was flipped. */
  function ExpectedPopcount(cfg: Config, hash: seq<byte> -> Mask, keys: seq<byte>): (pop: seq<nat>)
    requires cfg.Valid() && FixedWidth(hash, cfg.HashBits()) && |keys| == CorpusSize(cfg)
    ensures |pop| == PopcountSize(cfg)
    ensures forall j :: 0 <= j < |pop| ==> pop[j] <= cfg.reps
  {
    seq(PopcountSize(cfg), j requires 0 <= j < PopcountSize(cfg) => ExpectedPopEntry(cfg, hash, keys, j))
  }

  function ExpectedPopEntry(cfg: Config, hash: seq<byte> -> Mask, keys: seq<byte>, j: nat): (n: nat)
    requires cfg.Valid() && FixedWidth(hash, cfg.HashBits()) && |keys| == CorpusSize(cfg)
    requires j < PopcountSize(cfg)
    ensures n <= cfg.reps
  {
    var hashbits := cfg.HashBits();
    var (k, i) := Split(j, cfg.KeyBits(), hashbits);
    MasksWide(cfg, hash, keys, k, i + 1);
    CountSet(Masks(cfg, hash, keys, k), i)
  }

  /** The reference andcount vector: in the row of key bit `keybit`, the entry at the position of
      pair `(a, b)` is the number of repetitions in which both output bits changed; the padding
      after the triangle is zero. */
  function ExpectedAndcount(cfg: Config, hash: seq<byte> -> Mask, keys: seq<byte>): (andc: seq<nat>)
    requires cfg.Valid() && FixedWidth(hash, cfg.HashBits()) && |keys| == CorpusSize(cfg)
    ensures |andc| == AndcountSize(cfg)
    ensures forall j :: 0 <= j < |andc| ==> andc[j] <= cfg.reps
  {
    seq(AndcountSize(cfg), j requires 0 <= j < AndcountSize(cfg) => ExpectedAndEntry(cfg, hash, keys, j))
  }

  function ExpectedAndEntry(cfg: Config, hash: seq<byte> -> Mask, keys: seq<byte>, j: nat): (n: nat)
    requires cfg.Valid() && FixedWidth(hash, cfg.HashBits()) && |keys| == CorpusSize(cfg)
    requires j < AndcountSize(cfg)
    ensures n <= cfg.reps
  {
    var hashbits := cfg.HashBits();
    var stride := HashBitPairs(hashbits);
    var (k, t) := Split(j, cfg.KeyBits(), stride);
    if t < PairCount(hashbits) then
      var p := PairAt(hashbits, t);
      MasksWide(cfg, hash, keys, k, p.1 + 1);
      CountBoth(Masks(cfg, hash, keys, k), p.0, p.1)
    else 0
  }

  /** Every change-mask of a key bit has `hashbits` bits. */
  lemma MasksWide(cfg: Config, hash: seq<byte> -> Mask, keys: seq<byte>, keybit: nat, w: nat)
    requires FixedWidth(hash, cfg.HashBits())
    requires |keys| == CorpusSize(cfg) && keybit < cfg.KeyBits() && w <= cfg.HashBits()
    ensures Wide(Masks(cfg, hash, keys, keybit), w)
  {
  }

  /** Entry `j` of `n` rows of width `w`: its row and column. */
  function Split(j: nat, n: nat, w: nat): (rc: (nat, nat))
    requires j < n * w
    ensures rc.0 < n && rc.1 < w && j == rc.0 * w + rc.1
  {
    assert w > 0;
    (j / w, j % w)
  }

  /** The row and column of an entry are unique. */
  lemma SplitUnique(j: nat, n: nat, w: nat, k: nat, i: nat)
    requires k < n && i < w && j == k * w + i
    ensures j < n * w && Split(j, n, w) == (k, i)
  {
    StridedRows(k, n, w);
    var rc := Split(j, n, w);
    if rc.0 < k {
      StridedRows(rc.0, k, w);
    } else if k < rc.0 {
      StridedRows(k, rc.0, w);
    }
  }

  /** Cell `(k, i)` of the reference popcount vector counts the repetitions in which output
      bit `i` changed when key bit `k` was flipped. */
  lemma ExpectedPopCell(cfg: Config, hash: seq<byte> -> Mask, keys: seq<byte>, k: nat, i: nat)
    requires cfg.Valid() && FixedWidth(hash, cfg.HashBits()) && |keys| == CorpusSize(cfg)
    requires k < cfg.KeyBits() && i < cfg.HashBits()
    ensures PopCell(cfg, ExpectedPopcount(cfg, hash, keys), k, i) == CountSet(Masks(cfg, hash, keys, k), i)
  {
    SplitUnique(PopRowBase(cfg, k) + i, cfg.KeyBits(), cfg.HashBits(), k, i);
  }

  /** Cell `(k, a, b)` of the reference andcount vector counts the repetitions in which output
      bits `a` and `b` both changed when key bit `k` was flipped. */
  lemma ExpectedPairCell(cfg: Config, hash: seq<byte> -> Mask, keys: seq<byte>, k: nat, a: nat, b: nat)
    requires cfg.Valid() && FixedWidth(hash, cfg.HashBits()) && |keys| == CorpusSize(cfg)
    requires k < cfg.KeyBits() && a < b < cfg.HashBits()
    ensures PairCell(cfg, ExpectedAndcount(cfg, hash, keys), k, a, b) == CountBoth(Masks(cfg, hash, keys, k), a, b)
  {
    var hashbits := cfg.HashBits();
    PairsFitInStride(hashbits);
    var t := PairOffset(hashbits, a, b);
    SplitUnique(AndRowBase(cfg, k) + t, cfg.KeyBits(), HashBitPairs(hashbits), k, t);
    PairAtOffset(hashbits, a, b);
  }

  /** The padding after each triangle of the reference andcount vector is zero. */
  lemma ExpectedPadding(cfg: Config, hash: seq<byte> -> Mask, keys: seq<byte>, k: nat, t: nat)
    requires cfg.Valid() && FixedWidth(hash, cfg.HashBits()) && |keys| == CorpusSize(cfg)
    requires k < cfg.KeyBits() && PairCount(cfg.HashBits()) <= t < HashBitPairs(cfg.HashBits())
    ensures AndCell(cfg, ExpectedAndcount(cfg, hash, keys), k, t) == 0
  {
    SplitUnique(AndRowBase(cfg, k) + t, cfg.KeyBits(), HashBitPairs(cfg.HashBits()), k, t);
  }

  /** Every contingency table rebuilt from the reference vectors is a genuine 2x2 table:
      its boxes are the direct counts of the four bit combinations, so none is negative,
      they sum to `reps`, and the and-count is at most either popcount. */
  lemma ExpectedTablesConsistent(cfg: Config, hash: seq<byte> -> Mask, keys: seq<byte>, k: nat, a: nat, b: nat)
    requires cfg.Valid() && FixedWidth(hash, cfg.HashBits()) && |keys| == CorpusSize(cfg)
    requires k < cfg.KeyBits() && a < b < cfg.HashBits()
    ensures var pop := ExpectedPopcount(cfg, hash, keys);
            var t := Reconstruct(PairCell(cfg, ExpectedAndcount(cfg, hash, keys), k, a, b),
                                 PopCell(cfg, pop, k, a), PopCell(cfg, pop, k, b), cfg.reps);
            t.NonNegative() && t.Total() == cfg.reps
            && t.box11 <= PopCell(cfg, pop, k, a) && t.box11 <= PopCell(cfg, pop, k, b)
  {
    ExpectedPopCell(cfg, hash, keys, k, a);
    ExpectedPopCell(cfg, hash, keys, k, b);
    ExpectedPairCell(cfg, hash, keys, k, a, b);
    MasksWide(cfg, hash, keys, k, b + 1);
    ReconstructCountsBoxes(Masks(cfg, hash, keys, k), a, b);
  }

  /** A counter vector of `n` zeros. */
  function Zeros(n: nat): (z: seq<nat>)
    ensures |z| == n && forall j :: 0 <= j < n ==> z[j] == 0
  {
    seq(n, _ => 0)
  }

  /** Accumulating every key bit into a zero-filled popcount vector yields the reference vector. */
  lemma PopFromZero(cfg: Config, hash: seq<byte> -> Mask, keys: seq<byte>, pop: seq<nat>)
    requires cfg.Valid() && FixedWidth(hash, cfg.HashBits()) && |keys| == CorpusSize(cfg)
    requires PopAccumulated(cfg, hash, keys, Zeros(PopcountSize(cfg)), pop, 0, cfg.KeyBits())
    ensures pop == ExpectedPopcount(cfg, hash, keys)
  {
    var expected := ExpectedPopcount(cfg, hash, keys);
    forall j | 0 <= j < |pop|
      ensures pop[j] == expected[j]
    {
      PopEntryFromZero(cfg, hash, keys, pop, j);
    }
  }

  lemma PopEntryFromZero(cfg: Config, hash: seq<byte> -> Mask, keys: seq<byte>, pop: seq<nat>, j: nat)
    requires cfg.Valid() && FixedWidth(hash, cfg.HashBits()) && |keys| == CorpusSize(cfg)
    requires PopAccumulated(cfg, hash, keys, Zeros(PopcountSize(cfg)), pop, 0, cfg.KeyBits())
    requires j < |pop|
    ensures pop[j] == ExpectedPopEntry(cfg, hash, keys, j)
  {
    var (k, i) := Split(j, cfg.KeyBits(), cfg.HashBits());
    assert pop[j] == PopCell(cfg, pop, k, i);
  }

  /** Accumulating every key bit into a zero-filled andcount vector yields the reference vector. */
  lemma AndFromZero(cfg: Config, hash: seq<byte> -> Mask, keys: seq<byte>, andc: seq<nat>)
    requires cfg.Valid() && FixedWidth(hash, cfg.HashBits()) && |keys| == CorpusSize(cfg)
    requires AndAccumulated(cfg, hash, keys, Zeros(AndcountSize(cfg)), andc, 0, cfg.KeyBits())
    ensures andc == ExpectedAndcount(cfg, hash, keys)
  {
    var expected := ExpectedAndcount(cfg, hash, keys);
    forall j | 0 <= j < |andc|
      ensures andc[j] == expected[j]
    {
      AndEntryFromZero(cfg, hash, keys, andc, j);
    }
  }

  lemma AndEntryFromZero(cfg: Config, hash: seq<byte> -> Mask, keys: seq<byte>, andc: seq<nat>, j: nat)
    requires cfg.Valid() && FixedWidth(hash, cfg.HashBits()) && |keys| == CorpusSize(cfg)
    requires AndAccumulated(cfg, hash, keys, Zeros(AndcountSize(cfg)), andc, 0, cfg.KeyBits())
    requires j < |andc|
    ensures andc[j] == ExpectedAndEntry(cfg, hash, keys, j)
  {
    var hashbits := cfg.HashBits();
    var (k, t) := Split(j, cfg.KeyBits(), HashBitPairs(hashbits));
    if t < PairCount(hashbits) {
      var p := PairAt(hashbits, t);
      assert andc[j] == PairCell(cfg, andc, k, p.0, p.1);
    } else {
      assert andc[j] == AndCell(cfg, andc, k, t);
    }
  }

  /** Whether `BicTestImpl` starts any batch: with one CPU it runs one directly; otherwise only a
      build with threads starts workers, one per CPU, and a CPU count of 0 starts none. */
  predicate BatchesRun(ncpu: nat, threads: bool)
  {
    ncpu == 1 || (threads && ncpu >= 1)
  }

  /** `BicTestImpl` after key generation. The popcount and andcount vectors start zero-filled
      and the counter at 0. With one CPU a single `BicTestBatch` claims all key bits at once.
      Otherwise, in a build with threads, `ncpu` workers with batch size 2 share the counter
      (here run one after another); in a build without threads no batch runs at all. Whenever a
      batch runs the vectors end up equal to the reference counts, whatever `ncpu` is; when none
      runs they stay zero. The verdict is `report`'s on the vectors. */
  method BicTestImpl(cfg: Config, hash: seq<byte> -> Mask, keys: seq<byte>, ncpu: nat, threads: bool,
                     report: (Config, seq<nat>, seq<nat>) -> bool)
    returns (result: bool, popcount: seq<nat>, andcount: seq<nat>)
    requires cfg.Valid() && FixedWidth(hash, cfg.HashBits()) && |keys| == CorpusSize(cfg)
    ensures BatchesRun(ncpu, threads) ==> popcount == ExpectedPopcount(cfg, hash, keys)
    ensures BatchesRun(ncpu, threads) ==> andcount == ExpectedAndcount(cfg, hash, keys)
    ensures !BatchesRun(ncpu, threads) ==> popcount == Zeros(PopcountSize(cfg)) && andcount == Zeros(AndcountSize(cfg))
    ensures result == report(cfg, popcount, andcount)
  {
    var keybits := cfg.KeyBits();
    ghost var pop0, andc0 := Zeros(PopcountSize(cfg)), Zeros(AndcountSize(cfg));
    popcount := Zeros(PopcountSize(cfg));
    andcount := Zeros(AndcountSize(cfg));
    var counter: nat := 0;
    var claims: seq<Range>;
    if ncpu == 1 {
      counter, claims, popcount, andcount := BicTestBatch(cfg, hash, keys, counter, keybits, popcount, andcount);
      PopFromZero(cfg, hash, keys, popcount);
      AndFromZero(cfg, hash, keys, andcount);
    } else if threads {
      var worker := 0;
      while worker < ncpu
        invariant worker <= ncpu
        invariant worker == 0 ==> counter == 0 && popcount == pop0 && andcount == andc0
        invariant worker > 0 ==> counter >= keybits
        invariant worker > 0 ==> popcount == ExpectedPopcount(cfg, hash, keys)
        invariant worker > 0 ==> andcount == ExpectedAndcount(cfg, hash, keys)
      {
        ghost var popBefore, andcBefore := popcount, andcount;
        counter, claims, popcount, andcount := BicTestBatch(cfg, hash, keys, counter, 2, popcount, andcount);
        if worker == 0 {
          PopFromZero(cfg, hash, keys, popcount);
          AndFromZero(cfg, hash, keys, andcount);
        } else {
          PopAccumulatedRefl(cfg, hash, keys, popBefore, keybits);
          AndAccumulatedRefl(cfg, hash, keys, andcBefore, keybits);
        }
        worker := worker + 1;
      }
    }
    result := report(cfg, popcount, andcount);
  }

  /** Repetitions per key bit: 100000 for hashes wider than 128 bits or marked very slow,
      otherwise `64000000 / bits`, the largest count whose total number of output bits
      examined stays within 64 million. */
  function RepCount(bits: nat, verySlow: bool): (reps: nat)
    requires bits > 0 || verySlow
    ensures bits > 128 || verySlow ==> reps == 100000
    ensures !(bits > 128 || verySlow) ==> reps * bits <= 64000000 < (reps + 1) * bits
  {
    if bits > 128 || verySlow then 100000 else 64000000 / bits
  }

  /** Every configuration runs between 100000 and 64000000 repetitions per key bit, so no count
      (each at most `reps`) overflows the 32-bit counters. */
  lemma RepCountBounds(bits: nat, verySlow: bool)
    requires bits > 0 || verySlow
    ensures 100000 <= RepCount(bits, verySlow) <= 64000000 < 0x1_0000_0000
  {
    var reps := RepCount(bits, verySlow);
    if !(bits > 128 || verySlow) {
      assert 64000000 < (reps + 1) * bits <= (reps + 1) * 128;
      assert reps * bits <= 64000000 && 1 <= bits;
      assert reps <= reps * bits;
    }
  }

  /** Among fast hashes of at most 128 bits, a wider hash never gets more repetitions. */
  lemma RepCountAntitone(bits1: nat, bits2: nat)
    requires 0 < bits1 <= bits2
    ensures RepCount(bits2, false) <= RepCount(bits1, false)
  {
    if bits2 <= 128 {
      var r1, r2 := RepCount(bits1, false), RepCount(bits2, false);
      MulLeftMonotone(bits1, bits2, r2);
      assert r2 * bits1 <= r2 * bits2 <= 64000000 < (r1 + 1) * bits1;
      if r1 + 1 <= r2 {
        MulLeftMonotone(r1 + 1, r2, bits1);
      }
    }
  }

  /** `BicTest`: both test configurations, 11-byte and 16-byte keys, run with the same hash and
      the same repetition count, and the verdict is the AND of the two (both always run). */
  method BicTest(hashbytes: nat, bits: nat, verySlow: bool, hash: seq<byte> -> Mask,
                 keys11: seq<byte>, keys16: seq<byte>, ncpu: nat, threads: bool,
                 report: (Config, seq<nat>, seq<nat>) -> bool)
    returns (result: bool)
    requires hashbytes >= 1 && FixedWidth(hash, 8 * hashbytes) && (bits > 0 || verySlow)
    requires |keys11| == CorpusSize(Config(11, hashbytes, RepCount(bits, verySlow)))
    requires |keys16| == CorpusSize(Config(16, hashbytes, RepCount(bits, verySlow)))
    ensures var cfg11 := Config(11, hashbytes, RepCount(bits, verySlow));
            var cfg16 := Config(16, hashbytes, RepCount(bits, verySlow));
            BatchesRun(ncpu, threads) ==>
              result == (report(cfg11, ExpectedPopcount(cfg11, hash, keys11), ExpectedAndcount(cfg11, hash, keys11))
                         && report(cfg16, ExpectedPopcount(cfg16, hash, keys16), ExpectedAndcount(cfg16, hash, keys16)))
    ensures var cfg11 := Config(11, hashbytes, RepCount(bits, verySlow));
            var cfg16 := Config(16, hashbytes, RepCount(bits, verySlow));
            !BatchesRun(ncpu, threads) ==>
              result == (report(cfg11, Zeros(PopcountSize(cfg11)), Zeros(AndcountSize(cfg11)))
                         && report(cfg16, Zeros(PopcountSize(cfg16)), Zeros(AndcountSize(cfg16))))
  {
    var reps := RepCount(bits, verySlow);
    result := true;
    var r11, pop11, andc11 := BicTestImpl(Config(11, hashbytes, reps), hash, keys11, ncpu, threads, report);
    result := result && r11;
    var r16, pop16, andc16 := BicTestImpl(Config(16, hashbytes, reps), hash, keys16, ncpu, threads, report);
    result := result && r16;
  }
}
