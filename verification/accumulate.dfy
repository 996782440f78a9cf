/**
  Accumulation of one change-mask into a key bit's popcount and andcount rows,
  and the counts those rows hold after a sequence of change-masks.

  Counter buffers are sequences of naturals; a write cursor is an index into
  such a sequence.
 */
module Accumulate {
  import opened Bits
  import opened Pairs

  /** 1 when bit `i` of the mask is set, else 0. */
  function Bit(mask: Mask, i: nat): nat
    requires i < |mask|
  {
    if mask[i] then 1 else 0
  }

  /** 1 when both bits `a` and `b` of the mask are set, else 0. */
  function Both(mask: Mask, a: nat, b: nat): nat
    requires a < |mask| && b < |mask|
  {
    if mask[a] && mask[b] then 1 else 0
  }

  /** 1 when both bits of the pair stored at triangle position `t` are set, else 0. */
  function PairBit(mask: Mask, t: nat): nat
    requires t < PairCount(|mask|)
  {
    var p := PairAt(|mask|, t);
    Both(mask, p.0, p.1)
  }

  /** Increment that scattering bits `start .. start + n - 1` of `mask` into the counters
      from `cursor` on gives to cell `j`. */
  function ScatterInc(mask: Mask, start: nat, cursor: nat, n: nat, j: nat): nat
    requires start + n <= |mask|
  {
    if cursor <= j < cursor + n then Bit(mask, start + (j - cursor)) else 0
  }

  /** Increment that the pair scan of `mask` gives to cell `j` of a buffer whose triangle starts
      at `base`, counting only the first `n` triangle positions. */
  function PairInc(mask: Mask, base: nat, n: nat, j: nat): nat
    requires n <= PairCount(|mask|)
  {
    if base <= j < base + n then PairBit(mask, j - base) else 0
  }

  /** `HistogramHashBits(h, cur, start)`: for every set bit `i >= start` of the digest, adds one
      to counter `cur + (i - start)`; returns the cursor just past the `hashbits - start`
      counters it may touch. Nothing outside those counters changes. */
  method HistogramHashBits(mem: seq<nat>, cursor: nat, mask: Mask, start: nat)
    returns (mem': seq<nat>, cursor': nat)
    requires start <= |mask|
    requires cursor + (|mask| - start) <= |mem|
    ensures cursor' == cursor + (|mask| - start)
    ensures |mem'| == |mem|
    ensures forall j :: 0 <= j < |mem| ==>
              mem'[j] == mem[j] + ScatterInc(mask, start, cursor, |mask| - start, j)
  {
    mem' := mem;
    var i := start;
    assert forall j :: ScatterInc(mask, start, cursor, 0, j) == 0;
    while i < |mask|
      invariant start <= i <= |mask|
      invariant |mem'| == |mem|
      invariant forall j :: 0 <= j < |mem| ==>
                  mem'[j] == mem[j] + ScatterInc(mask, start, cursor, i - start, j)
    {
      if mask[i] {
        mem' := mem'[cursor + (i - start) := mem'[cursor + (i - start)] + 1];
      }
      i := i + 1;
    }
    cursor' := cursor + (|mask| - start);
  }

  /** The skip-ahead pair scan. For each `out1` below `hashbits - 1`: when bit `out1` is clear
      the cursor skips the `hashbits - 1 - out1` pairs rooted at `out1`; otherwise the bits above
      `out1` are scattered into them. The result is the naive double loop's: the counter of pair
      `(a, b)`, `a < b`, grows by one exactly when both bits are set, and every counter outside
      the triangle is left as it was. The cursor ends `hashbits * (hashbits - 1) / 2` past
      `base`, whatever the mask. */
  method AccumulatePairs(mem: seq<nat>, base: nat, mask: Mask) returns (mem': seq<nat>, cursor': nat)
    requires |mask| >= 1
    requires base + PairCount(|mask|) <= |mem|
    ensures cursor' == base + PairCount(|mask|)
    ensures 2 * (cursor' - base) == |mask| * (|mask| - 1)
    ensures |mem'| == |mem|
    ensures forall j :: 0 <= j < |mem| ==> mem'[j] == mem[j] + PairInc(mask, base, PairCount(|mask|), j)
    ensures forall a, b :: 0 <= a < b < |mask| ==>
              mem'[base + PairOffset(|mask|, a, b)] == mem[base + PairOffset(|mask|, a, b)] + Both(mask, a, b)
    ensures forall j :: 0 <= j < |mem| && !(base <= j < base + PairCount(|mask|)) ==> mem'[j] == mem[j]
  {
    var hashbits := |mask|;
    mem' := mem;
    cursor' := base;
    var out1 := 0;
    while out1 < hashbits - 1
      invariant out1 <= hashbits - 1
      invariant RowStart(hashbits, out1) <= PairCount(hashbits)
      invariant cursor' == base + RowStart(hashbits, out1)
      invariant PairsScanned(mem, mem', mask, base, RowStart(hashbits, out1))
    {
      RowStartMonotone(hashbits, out1 + 1, hashbits);
      if !mask[out1] {
        SkipRow(mem, mem', mask, base, out1);
        cursor' := cursor' + (hashbits - 1 - out1);
      } else {
        ghost var mid := mem';
        mem', cursor' := HistogramHashBits(mem', cursor', mask, out1 + 1);
        ScatterRow(mem, mid, mem', mask, base, out1);
      }
      out1 := out1 + 1;
    }
    PairCountClosedForm(hashbits);
    forall a, b | 0 <= a < b < hashbits
      ensures mem'[base + PairOffset(hashbits, a, b)] == mem[base + PairOffset(hashbits, a, b)] + Both(mask, a, b)
    {
      PairAtOffset(hashbits, a, b);
    }
  }

  /** `mem1` is `mem0` with the first `n` triangle positions of the scan of `mask` added. */
  ghost predicate PairsScanned(mem0: seq<nat>, mem1: seq<nat>, mask: Mask, base: nat, n: nat)
    requires n <= PairCount(|mask|)
  {
    |mem1| == |mem0| && forall j :: 0 <= j < |mem0| ==> mem1[j] == mem0[j] + PairInc(mask, base, n, j)
  }

  /** Skipping row `a` when bit `a` is clear: none of its pairs has both bits set. */
  lemma SkipRow(mem0: seq<nat>, mem1: seq<nat>, mask: Mask, base: nat, a: nat)
    requires a < |mask| - 1 && !mask[a]
    requires RowStart(|mask|, a + 1) <= PairCount(|mask|)
    requires PairsScanned(mem0, mem1, mask, base, RowStart(|mask|, a))
    ensures PairsScanned(mem0, mem1, mask, base, RowStart(|mask|, a + 1))
  {
    var hashbits := |mask|;
    RowStartMonotone(hashbits, a, a + 1);
    forall j | 0 <= j < |mem0|
      ensures mem1[j] == mem0[j] + PairInc(mask, base, RowStart(hashbits, a + 1), j)
    {
      if base + RowStart(hashbits, a) <= j < base + RowStart(hashbits, a + 1) {
        PairAtRow(hashbits, a, j - base - RowStart(hashbits, a));
      }
    }
  }

  /** Scattering the bits above `a` into row `a` when bit `a` is set: pair `(a, b)` gets bit `b`,
      which is exactly "both bits set". */
  lemma ScatterRow(mem0: seq<nat>, mid: seq<nat>, mem1: seq<nat>, mask: Mask, base: nat, a: nat)
    requires a < |mask| - 1 && mask[a]
    requires RowStart(|mask|, a + 1) <= PairCount(|mask|)
    requires PairsScanned(mem0, mid, mask, base, RowStart(|mask|, a))
    requires |mem1| == |mid|
    requires forall j :: 0 <= j < |mid| ==>
               mem1[j] == mid[j] + ScatterInc(mask, a + 1, base + RowStart(|mask|, a), |mask| - (a + 1), j)
    ensures PairsScanned(mem0, mem1, mask, base, RowStart(|mask|, a + 1))
  {
    var hashbits := |mask|;
    RowStartMonotone(hashbits, a, a + 1);
    forall j | 0 <= j < |mem0|
      ensures mem1[j] == mem0[j] + PairInc(mask, base, RowStart(hashbits, a + 1), j)
    {
      if base + RowStart(hashbits, a) <= j < base + RowStart(hashbits, a + 1) {
        PairAtRow(hashbits, a, j - base - RowStart(hashbits, a));
      }
    }
  }

  /** All masks are at least `w` bits wide. */
  predicate Wide(ms: seq<Mask>, w: nat)
  {
    forall r :: 0 <= r < |ms| ==> w <= |ms[r]|
  }

  /** Number of masks in which bit `i` is set. */
  function CountSet(ms: seq<Mask>, i: nat): (n: nat)
    requires Wide(ms, i + 1)
    ensures n <= |ms|
  {
    if |ms| == 0 then 0 else CountSet(ms[..|ms| - 1], i) + Bit(ms[|ms| - 1], i)
  }

  /** Number of masks in which bits `a` and `b` are both set. */
  function CountBoth(ms: seq<Mask>, a: nat, b: nat): (n: nat)
    requires Wide(ms, a + 1) && Wide(ms, b + 1)
    ensures n <= |ms|
  {
    if |ms| == 0 then 0 else CountBoth(ms[..|ms| - 1], a, b) + Both(ms[|ms| - 1], a, b)
  }

  /** Number of masks in which bit `a` reads `va` and bit `b` reads `vb`: one box of the
      2x2 table, counted directly. */
  function CountWhere(ms: seq<Mask>, a: nat, b: nat, va: bool, vb: bool): (n: nat)
    requires Wide(ms, a + 1) && Wide(ms, b + 1)
    ensures n <= |ms|
  {
    if |ms| == 0 then 0
    else
      var m := ms[|ms| - 1];
      CountWhere(ms[..|ms| - 1], a, b, va, vb) + (if m[a] == va && m[b] == vb then 1 else 0)
  }

  /** Adding one more mask to a prefix adds that mask's bit to each count. */
  lemma CountsSnoc(ms: seq<Mask>, n: nat, a: nat, b: nat)
    requires n < |ms| && Wide(ms, a + 1) && Wide(ms, b + 1)
    ensures CountSet(ms[..n + 1], a) == CountSet(ms[..n], a) + Bit(ms[n], a)
    ensures CountBoth(ms[..n + 1], a, b) == CountBoth(ms[..n], a, b) + Both(ms[n], a, b)
  {
    assert ms[..n + 1][..n] == ms[..n];
  }

  /** The four boxes counted directly partition the masks, and the row and column sums are the
      single-bit counts: `[11] + [10]` is the count of bit `a`, `[11] + [01]` that of bit `b`. */
  lemma {:induction false} BoxesPartition(ms: seq<Mask>, a: nat, b: nat)
    requires Wide(ms, a + 1) && Wide(ms, b + 1)
    ensures CountWhere(ms, a, b, true, true) == CountBoth(ms, a, b)
    ensures CountWhere(ms, a, b, true, true) + CountWhere(ms, a, b, true, false) == CountSet(ms, a)
    ensures CountWhere(ms, a, b, true, true) + CountWhere(ms, a, b, false, true) == CountSet(ms, b)
    ensures CountWhere(ms, a, b, true, true) + CountWhere(ms, a, b, true, false)
          + CountWhere(ms, a, b, false, true) + CountWhere(ms, a, b, false, false) == |ms|
    decreases |ms|
  {
    if |ms| > 0 {
      BoxesPartition(ms[..|ms| - 1], a, b);
    }
  }
}
