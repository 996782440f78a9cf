/**
  Work claiming over the key-bit index space.

  Workers share one counter. In the build without threads, `FETCH_ADD(v, n)`
  is `((v += n) - n)`: it adds `n` to the counter and yields the value the
  counter held before. Each value below `keybits` claims the key bits
  `[start, min(start + batch, keybits))`; the first value at or beyond
  `keybits` ends the loop.
 */
module Claim {
  import opened Arith

  /** A claimed half-open range `[start, stop)` of key bits. */
  datatype Range = Range(start: nat, stop: nat)
  {
    predicate Contains(k: nat) { start <= k < stop }
  }

  function Min(a: nat, b: nat): nat
  {
    if a <= b then a else b
  }

  /** The non-atomic `FETCH_ADD(v, n)`, `((v += n) - n)`: the counter after the addition, and the
      value of the expression, which the caller receives. */
  function FetchAdd(counter: nat, n: nat): (r: (nat, nat))
    ensures r.1 == counter && r.0 == counter + n
  {
    var v := counter + n;
    (v, v - n)
  }

  /** The ranges the claim loop takes, in order, starting from counter value `counter`. */
  function ClaimRanges(counter: nat, batch: nat, keybits: nat): (rs: seq<Range>)
    requires batch > 0 || counter >= keybits
    ensures forall i :: 0 <= i < |rs| ==>
              rs[i].start == counter + i * batch && rs[i].start < keybits
              && rs[i].stop == Min(rs[i].start + batch, keybits)
    ensures counter + |rs| * batch >= keybits
    decreases if counter >= keybits then 0 else keybits - counter
  {
    if counter >= keybits then []
    else
      var (next, start) := FetchAdd(counter, batch);
      [Range(start, Min(start + batch, keybits))] + ClaimRanges(next, batch, keybits)
  }

  /** Every claimed range is non-empty, and earlier claims lie wholly below later ones. */
  lemma ClaimsOrdered(counter: nat, batch: nat, keybits: nat, i: nat, j: nat)
    requires batch > 0 || counter >= keybits
    requires i < j < |ClaimRanges(counter, batch, keybits)|
    ensures ClaimRanges(counter, batch, keybits)[i].start < ClaimRanges(counter, batch, keybits)[i].stop
    ensures ClaimRanges(counter, batch, keybits)[i].stop <= ClaimRanges(counter, batch, keybits)[j].start
  {
    var rs := ClaimRanges(counter, batch, keybits);
    MulLeftMonotone(i + 1, j, batch);
    assert (i + 1) * batch == i * batch + batch;
    assert rs[i].stop <= rs[i].start + batch;
  }

  /** Every key bit in `[counter, keybits)` lies in exactly one claimed range, and no claimed
      range reaches outside `[counter, keybits)`. */
  lemma {:induction false} ClaimsCoverOnce(counter: nat, batch: nat, keybits: nat, k: nat)
    requires batch > 0 || counter >= keybits
    ensures counter <= k < keybits ==>
              exists i :: 0 <= i < |ClaimRanges(counter, batch, keybits)|
                && ClaimRanges(counter, batch, keybits)[i].Contains(k)
    ensures forall i, j :: 0 <= i < j < |ClaimRanges(counter, batch, keybits)| ==>
              !(ClaimRanges(counter, batch, keybits)[i].Contains(k)
                && ClaimRanges(counter, batch, keybits)[j].Contains(k))
    ensures forall i :: (0 <= i < |ClaimRanges(counter, batch, keybits)|
              && ClaimRanges(counter, batch, keybits)[i].Contains(k)) ==> counter <= k < keybits
    decreases if counter >= keybits then 0 else keybits - counter
  {
    var rs := ClaimRanges(counter, batch, keybits);
    if counter < keybits {
      ClaimsCoverOnce(counter + batch, batch, keybits, k);
      var rest := ClaimRanges(counter + batch, batch, keybits);
      assert rs == [Range(counter, Min(counter + batch, keybits))] + rest;
      if counter <= k < keybits {
        if k < counter + batch {
          assert rs[0].Contains(k);
        } else {
          var i :| 0 <= i < |rest| && rest[i].Contains(k);
          assert rs[i + 1] == rest[i];
        }
      }
      forall i, j | 0 <= i < j < |rs|
        ensures !(rs[i].Contains(k) && rs[j].Contains(k))
      {
        ClaimsOrdered(counter, batch, keybits, i, j);
      }
      forall i | 0 <= i < |rs| && rs[i].Contains(k)
        ensures counter <= k < keybits
      {
        if i > 0 {
          assert rs[i] == rest[i - 1];
        }
      }
    }
  }

  /** One turn of the claim loop: if `claims` are the ranges taken so far and the counter
      handed out `start < keybits`, then the range claimed now extends them, and the rest of the
      ranges are those taken from `start + batch` on. */
  lemma ClaimStep(counter: nat, batch: nat, keybits: nat, claims: seq<Range>, start: nat)
    requires batch > 0 && start < keybits
    requires start == counter + |claims| * batch
    requires claims + ClaimRanges(start, batch, keybits) == ClaimRanges(counter, batch, keybits)
    ensures start + batch == counter + (|claims| + 1) * batch
    ensures (claims + [Range(start, Min(start + batch, keybits))]) + ClaimRanges(start + batch, batch, keybits)
         == ClaimRanges(counter, batch, keybits)
  {
    var r := Range(start, Min(start + batch, keybits));
    var rest := ClaimRanges(start + batch, batch, keybits);
    assert ClaimRanges(start, batch, keybits) == [r] + rest;
    assert (claims + [r]) + rest == claims + ([r] + rest);
    assert (|claims| + 1) * batch == |claims| * batch + batch;
  }

  /** With `batch == keybits` (the single-CPU path) the whole range is taken by one claim,
      and the counter is then at `keybits`, so any later claim starts at or beyond it. */
  lemma SingleClaimTakesAll(keybits: nat)
    requires keybits > 0
    ensures ClaimRanges(0, keybits, keybits) == [Range(0, keybits)]
    ensures FetchAdd(0, keybits).0 >= keybits
  {
    assert ClaimRanges(keybits, keybits, keybits) == [];
  }

  /** Once the counter has reached `keybits`, every further claim ends the loop at once. */
  lemma ExhaustedCounterClaimsNothing(counter: nat, batch: nat, keybits: nat)
    requires counter >= keybits
    ensures ClaimRanges(counter, batch, keybits) == []
    ensures FetchAdd(counter, batch).1 >= keybits
  {
  }
}
