/**
  Layout of one key bit's andcount row.

  The pairs `(a, b)` of output bits with `a < b < hashbits` are stored row by
  row: all pairs whose first bit is 0, then those whose first bit is 1, and so
  on. Row `a` holds `hashbits - 1 - a` entries. The row of one key bit is
  `HashBitPairs(hashbits)` entries long, which leaves unused padding after the
  triangle whenever `hashbits` is even.
 */
module Pairs {

  /** Offset of row `a` in the triangle: the sum of `hashbits - 1 - k` over `k < a`. */
  function RowStart(hashbits: nat, a: nat): nat
    requires a <= hashbits
  {
    if a == 0 then 0 else RowStart(hashbits, a - 1) + (hashbits - a)
  }

  /** Number of unordered pairs of distinct output bits. */
  function PairCount(hashbits: nat): nat
  {
    RowStart(hashbits, hashbits)
  }

  /** Stride between the andcount rows of consecutive key bits, computed as
      `hashbits / 2 * hashbits` (integer division first). */
  function HashBitPairs(hashbits: nat): nat
  {
    hashbits / 2 * hashbits
  }

  /** Later rows start no earlier than earlier rows. */
  lemma {:induction false} RowStartMonotone(hashbits: nat, a: nat, a': nat)
    requires a <= a' <= hashbits
    ensures RowStart(hashbits, a) <= RowStart(hashbits, a')
    decreases a'
  {
    if a < a' {
      RowStartMonotone(hashbits, a, a' - 1);
    }
  }

  /** Position of pair `(a, b)` inside the triangle. */
  function PairOffset(hashbits: nat, a: nat, b: nat): (t: nat)
    requires a < b < hashbits
    ensures RowStart(hashbits, a) <= t < RowStart(hashbits, a + 1)
    ensures t < PairCount(hashbits)
  {
    RowStartMonotone(hashbits, a + 1, hashbits);
    RowStart(hashbits, a) + (b - a - 1)
  }

  /** The pair stored at position `t` of the triangle. */
  function PairAt(hashbits: nat, t: nat): (p: (nat, nat))
    requires t < PairCount(hashbits)
    ensures p.0 < p.1 < hashbits
    ensures PairOffset(hashbits, p.0, p.1) == t
  {
    PairAtFrom(hashbits, t, 0)
  }

  /** Searches the rows from `a` onwards for the one holding position `t`. */
  function PairAtFrom(hashbits: nat, t: nat, a: nat): (p: (nat, nat))
    requires a < hashbits
    requires RowStart(hashbits, a) <= t < PairCount(hashbits)
    ensures a <= p.0 < p.1 < hashbits
    ensures PairOffset(hashbits, p.0, p.1) == t
    decreases hashbits - a
  {
    if t < RowStart(hashbits, a + 1) then
      (a, a + 1 + (t - RowStart(hashbits, a)))
    else
      PairAtFrom(hashbits, t, a + 1)
  }

  /** Distinct pairs occupy distinct positions. */
  lemma PairOffsetInjective(hashbits: nat, a: nat, b: nat, c: nat, d: nat)
    requires a < b < hashbits && c < d < hashbits
    requires PairOffset(hashbits, a, b) == PairOffset(hashbits, c, d)
    ensures a == c && b == d
  {
    if a < c {
      RowStartMonotone(hashbits, a + 1, c);
    } else if c < a {
      RowStartMonotone(hashbits, c + 1, a);
    }
  }

  /** `PairAt` inverts `PairOffset`: the position of `(a, b)` holds `(a, b)`. */
  lemma PairAtOffset(hashbits: nat, a: nat, b: nat)
    requires a < b < hashbits
    ensures PairAt(hashbits, PairOffset(hashbits, a, b)) == (a, b)
  {
    var p := PairAt(hashbits, PairOffset(hashbits, a, b));
    PairOffsetInjective(hashbits, a, b, p.0, p.1);
  }

  /** Entry `t` of row `a` is the pair `(a, a + 1 + t)`. */
  lemma PairAtRow(hashbits: nat, a: nat, t: nat)
    requires a < hashbits && t < hashbits - 1 - a
    ensures RowStart(hashbits, a) + t < PairCount(hashbits)
    ensures PairAt(hashbits, RowStart(hashbits, a) + t) == (a, a + 1 + t)
  {
    assert PairOffset(hashbits, a, a + 1 + t) == RowStart(hashbits, a) + t;
    PairAtOffset(hashbits, a, a + 1 + t);
  }

  /** Closed form of the row offset: `2 * RowStart(n, a) == a * (2n - a - 1)`. */
  lemma {:induction false} RowStartClosedForm(hashbits: nat, a: nat)
    requires a <= hashbits
    ensures 2 * RowStart(hashbits, a) == a * (2 * hashbits - a - 1)
    decreases a
  {
    if a > 0 {
      RowStartClosedForm(hashbits, a - 1);
      calc {
        2 * RowStart(hashbits, a);
        2 * RowStart(hashbits, a - 1) + 2 * (hashbits - a);
        (a - 1) * (2 * hashbits - a) + 2 * (hashbits - a);
        { assert (a - 1) * (2 * hashbits - a) == a * (2 * hashbits - a) - (2 * hashbits - a); }
        a * (2 * hashbits - a - 1);
      }
    }
  }

  /** There are `hashbits * (hashbits - 1) / 2` pairs, and the last row (`a = hashbits - 1`) is
      empty, so a scan of rows `0 .. hashbits - 2` ends exactly at the end of the triangle. */
  lemma PairCountClosedForm(hashbits: nat)
    requires hashbits >= 1
    ensures 2 * PairCount(hashbits) == hashbits * (hashbits - 1)
    ensures RowStart(hashbits, hashbits - 1) == PairCount(hashbits)
  {
    RowStartClosedForm(hashbits, hashbits);
  }

  /** The triangle fits in the row stride. For even widths the stride leaves exactly
      `hashbits / 2` unused entries, the triangle having `hashbits / 2 * (hashbits - 1)`. */
  lemma PairsFitInStride(hashbits: nat)
    ensures PairCount(hashbits) <= HashBitPairs(hashbits)
    ensures hashbits % 2 == 0 ==> PairCount(hashbits) == hashbits / 2 * (hashbits - 1)
    ensures hashbits % 2 == 0 ==> HashBitPairs(hashbits) - PairCount(hashbits) == hashbits / 2
    ensures hashbits % 2 == 1 ==> PairCount(hashbits) == HashBitPairs(hashbits)
  {
    RowStartClosedForm(hashbits, hashbits);
    var h := hashbits / 2;
    if hashbits % 2 == 0 {
      assert hashbits == 2 * h;
      assert 2 * PairCount(hashbits) == 2 * h * (2 * h - 1);
      assert HashBitPairs(hashbits) == h * (2 * h);
    } else {
      assert hashbits == 2 * h + 1;
      assert 2 * PairCount(hashbits) == (2 * h + 1) * (2 * h);
      assert HashBitPairs(hashbits) == h * (2 * h + 1);
    }
  }
}
