/**
  Configuration of one test run and the placement of each key bit's data in
  the three flat buffers: the key corpus, the popcount vector and the andcount
  vector.
 */
module Layout {
  import opened Pairs

  /** `keybytes` is the key length, `hashbytes` is `sizeof(hashtype)`, `reps` the repetitions. */
  datatype Config = Config(keybytes: nat, hashbytes: nat, reps: nat)
  {
    function KeyBits(): nat { keybytes * 8 }

    function HashBits(): nat { hashbytes * 8 }

    /** `sizeof` of a C++ type is never zero. */
    predicate Valid() { hashbytes >= 1 }
  }

  /** Start of key bit `keybit`'s popcount row, `hashbits` entries long. */
  function PopRowBase(cfg: Config, keybit: nat): nat
  {
    keybit * cfg.HashBits()
  }

  /** Start of key bit `keybit`'s andcount row, `HashBitPairs(hashbits)` entries long. */
  function AndRowBase(cfg: Config, keybit: nat): nat
  {
    keybit * HashBitPairs(cfg.HashBits())
  }

  /** Start of the `reps` keys used for key bit `keybit`. */
  function KeySliceBase(cfg: Config, keybit: nat): nat
  {
    keybit * cfg.keybytes * cfg.reps
  }

  /** Start of the key used for repetition `rep` of key bit `keybit`. */
  function KeyOffset(cfg: Config, keybit: nat, rep: nat): nat
  {
    KeySliceBase(cfg, keybit) + rep * cfg.keybytes
  }

  function CorpusSize(cfg: Config): nat
  {
    cfg.keybytes * cfg.KeyBits() * cfg.reps
  }

  function PopcountSize(cfg: Config): nat
  {
    cfg.KeyBits() * cfg.HashBits()
  }

  function AndcountSize(cfg: Config): nat
  {
    cfg.KeyBits() * HashBitPairs(cfg.HashBits())
  }

  /** Rows of width `w` laid out back to back: row `k` ends where row `k + 1` starts,
      and lies wholly below row `n` when `k < n`. */
  lemma StridedRows(k: nat, n: nat, w: nat)
    requires k < n
    ensures (k + 1) * w == k * w + w
    ensures k * w + w <= n * w
  {
    assert k + 1 <= n;
    assert (k + 1) * w <= n * w;
  }

  /** Popcount rows of distinct key bits are disjoint and all lie inside the popcount vector. */
  lemma PopRowsDisjoint(cfg: Config, k1: nat, k2: nat)
    requires k1 < k2
    ensures PopRowBase(cfg, k1) + cfg.HashBits() <= PopRowBase(cfg, k2)
    ensures PopRowBase(cfg, k1 + 1) == PopRowBase(cfg, k1) + cfg.HashBits()
    ensures k2 <= cfg.KeyBits() ==> PopRowBase(cfg, k1) + cfg.HashBits() <= PopcountSize(cfg)
  {
    StridedRows(k1, k2, cfg.HashBits());
    if k2 <= cfg.KeyBits() {
      StridedRows(k1, cfg.KeyBits(), cfg.HashBits());
    }
  }

  /** The written part of an andcount row (the triangle) never reaches the next key bit's row,
      and every row lies inside the andcount vector. */
  lemma AndRowsDisjoint(cfg: Config, k1: nat, k2: nat)
    requires k1 < k2
    ensures AndRowBase(cfg, k1) + PairCount(cfg.HashBits()) <= AndRowBase(cfg, k1) + HashBitPairs(cfg.HashBits())
    ensures AndRowBase(cfg, k1) + HashBitPairs(cfg.HashBits()) <= AndRowBase(cfg, k2)
    ensures AndRowBase(cfg, k1 + 1) == AndRowBase(cfg, k1) + HashBitPairs(cfg.HashBits())
    ensures k2 <= cfg.KeyBits() ==> AndRowBase(cfg, k1) + HashBitPairs(cfg.HashBits()) <= AndcountSize(cfg)
  {
    PairsFitInStride(cfg.HashBits());
    StridedRows(k1, k2, HashBitPairs(cfg.HashBits()));
    if k2 <= cfg.KeyBits() {
      StridedRows(k1, cfg.KeyBits(), HashBitPairs(cfg.HashBits()));
    }
  }

  lemma PopRowBaseMonotone(cfg: Config, k1: nat, k2: nat)
    requires k1 <= k2
    ensures PopRowBase(cfg, k1) <= PopRowBase(cfg, k2)
  {
    if k1 < k2 {
      PopRowsDisjoint(cfg, k1, k2);
    }
  }

  lemma AndRowBaseMonotone(cfg: Config, k1: nat, k2: nat)
    requires k1 <= k2
    ensures AndRowBase(cfg, k1) <= AndRowBase(cfg, k2)
  {
    if k1 < k2 {
      AndRowsDisjoint(cfg, k1, k2);
    }
  }

  /** The key of repetition `rep` of key bit `keybit` lies inside that key bit's slice
      `[KeySliceBase(keybit), KeySliceBase(keybit + 1))`, and the slices of all key bits
      lie inside the corpus. */
  lemma KeyInSlice(cfg: Config, keybit: nat, rep: nat)
    requires keybit < cfg.KeyBits() && rep < cfg.reps
    ensures KeySliceBase(cfg, keybit) <= KeyOffset(cfg, keybit, rep)
    ensures KeyOffset(cfg, keybit, rep) + cfg.keybytes <= KeySliceBase(cfg, keybit + 1)
    ensures KeySliceBase(cfg, keybit + 1) <= CorpusSize(cfg)
  {
    var kb, reps := cfg.keybytes, cfg.reps;
    var slice := kb * reps;
    SliceEnd(cfg, keybit);
    assert rep * kb + kb <= slice by {
      StridedRows(rep, reps, kb);
      assert reps * kb == slice;
    }
    assert KeySliceBase(cfg, keybit + 1) == (keybit + 1) * slice by {
      assert (keybit + 1) * kb * reps == (keybit + 1) * (kb * reps);
    }
    assert CorpusSize(cfg) == cfg.KeyBits() * slice by {
      assert kb * cfg.KeyBits() * reps == cfg.KeyBits() * (kb * reps);
    }
    assert (keybit + 1) * slice <= cfg.KeyBits() * slice by {
      StridedRows(keybit, cfg.KeyBits(), slice);
    }
  }

  /** After all `reps` keys of one key bit, the cursor stands at the next key bit's slice. */
  lemma SliceEnd(cfg: Config, keybit: nat)
    ensures KeyOffset(cfg, keybit, cfg.reps) == KeySliceBase(cfg, keybit + 1)
  {
    var kb := cfg.keybytes;
    assert (keybit + 1) * kb * cfg.reps == keybit * kb * cfg.reps + kb * cfg.reps;
  }

  /** Each repetition moves the key cursor on by one key. */
  lemma KeyOffsetStep(cfg: Config, keybit: nat, rep: nat)
    ensures KeyOffset(cfg, keybit, rep + 1) == KeyOffset(cfg, keybit, rep) + cfg.keybytes
  {
    assert (rep + 1) * cfg.keybytes == rep * cfg.keybytes + cfg.keybytes;
  }

  /** Keys of distinct (key bit, repetition) pairs do not overlap, so each corpus byte is read
      by one key bit only. */
  lemma KeysDisjoint(cfg: Config, k1: nat, r1: nat, k2: nat, r2: nat)
    requires k1 < cfg.KeyBits() && r1 < cfg.reps && k2 < cfg.KeyBits() && r2 < cfg.reps
    requires (k1, r1) != (k2, r2)
    ensures KeyOffset(cfg, k1, r1) + cfg.keybytes <= KeyOffset(cfg, k2, r2)
         || KeyOffset(cfg, k2, r2) + cfg.keybytes <= KeyOffset(cfg, k1, r1)
  {
    KeyInSlice(cfg, k1, r1);
    KeyInSlice(cfg, k2, r2);
    var kb := cfg.keybytes;
    if k1 < k2 {
      KeySliceMonotone(cfg, k1 + 1, k2);
    } else if k2 < k1 {
      KeySliceMonotone(cfg, k2 + 1, k1);
    } else if r1 < r2 {
      StridedRows(r1, r2, kb);
    } else {
      StridedRows(r2, r1, kb);
    }
  }

  lemma KeySliceMonotone(cfg: Config, k1: nat, k2: nat)
    requires k1 <= k2
    ensures KeySliceBase(cfg, k1) <= KeySliceBase(cfg, k2)
  {
    assert k1 * cfg.keybytes <= k2 * cfg.keybytes;
    assert (k1 * cfg.keybytes) * cfg.reps <= (k2 * cfg.keybytes) * cfg.reps;
  }
}
