/**
  The 2x2 contingency table of one (key bit, output bit x, output bit y) tuple,
  rebuilt from the two counts the engine keeps and the known test count.

    [11]  x and y both changed          [01]  only y changed
    [10]  only x changed                [00]  neither changed
 */
module Contingency {
  import opened Bits
  import opened Accumulate

  datatype Table = Table(box11: int, box10: int, box01: int, box00: int)
  {
    function Total(): int { box11 + box10 + box01 + box00 }

    predicate NonNegative() { box11 >= 0 && box10 >= 0 && box01 >= 0 && box00 >= 0 }
  }

  /** Rebuilds the table from `andcount[x, y]`, `popcount[x]`, `popcount[y]` and the test count.
      The boxes always add up to the test count, and `[11] + [10]`, `[11] + [01]` give back the
      two bits' change counts. */
  function Reconstruct(andc: int, popx: int, popy: int, testcount: int): (t: Table)
    ensures t.Total() == testcount
    ensures t.box11 + t.box10 == popx && t.box11 + t.box01 == popy && t.box11 == andc
  {
    var box11 := andc;
    var box10 := popx - andc;
    var box01 := popy - andc;
    Table(box11, box10, box01, testcount - box11 - box10 - box01)
  }

  /** Applied to counts taken over a sequence of change-masks, the reconstruction gives exactly
      the table counted box by box; in particular every box is non-negative, and
      `andcount[x, y] <= min(popcount[x], popcount[y])`. */
  lemma {:induction false} ReconstructCountsBoxes(ms: seq<Mask>, x: nat, y: nat)
    requires Wide(ms, x + 1) && Wide(ms, y + 1)
    ensures Reconstruct(CountBoth(ms, x, y), CountSet(ms, x), CountSet(ms, y), |ms|)
         == Table(CountWhere(ms, x, y, true, true), CountWhere(ms, x, y, true, false),
                  CountWhere(ms, x, y, false, true), CountWhere(ms, x, y, false, false))
    ensures Reconstruct(CountBoth(ms, x, y), CountSet(ms, x), CountSet(ms, y), |ms|).NonNegative()
    ensures CountBoth(ms, x, y) <= CountSet(ms, x) && CountBoth(ms, x, y) <= CountSet(ms, y)
  {
    BoxesPartition(ms, x, y);
  }

  /** The boxes are all non-negative exactly when the counts are consistent: the joint count is
      at most each single-bit count, and the bits together changed at most `testcount` times. */
  lemma NonNegativeIffConsistent(andc: int, popx: int, popy: int, testcount: int)
    ensures Reconstruct(andc, popx, popy, testcount).NonNegative()
        <==> (0 <= andc && andc <= popx && andc <= popy && popx + popy - andc <= testcount)
  {
  }
}
