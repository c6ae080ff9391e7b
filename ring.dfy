/** Index arithmetic in a ring of `n` slots, with the successor written
    out instead of `%`. */
module Ring {
  /** The next index in a ring of `n` slots. */
  function Succ(c: nat, n: nat): nat
  {
    if c + 1 == n then 0 else c + 1
  }

  /** `(c + 1) % n` for an index within the ring. */
  lemma SuccIsMod(c: nat, n: nat)
    requires c < n
    ensures (c + 1) % n == Succ(c, n)
  {
  }

  /** The index `k` places after `c` in a ring of `n` slots. */
  function Step(c: nat, k: nat, n: nat): (r: nat)
    requires c < n
    ensures r < n
    decreases k
  {
    if k == 0 then c else Succ(Step(c, k - 1, n), n)
  }

  /** Up to one full cycle, `k` places after `c` is `c + k`, less `n` once
      the end of the ring is passed. */
  lemma {:induction false} StepClosedForm(c: nat, k: nat, n: nat)
    requires c < n && k <= n
    ensures Step(c, k, n) == if c + k < n then c + k else c + k - n
    decreases k
  {
    if k > 0 {
      StepClosedForm(c, k - 1, n);
    }
  }

  /** Every index of the ring is `k` places after `c` for one `k` in
      `[1, n]`; `n` places after `c` is `c` itself. */
  lemma StepCovers(c: nat, i: nat, n: nat)
    requires c < n && i < n
    ensures var k := if i > c then i - c else i + n - c;
      1 <= k <= n && Step(c, k, n) == i
  {
    var k := if i > c then i - c else i + n - c;
    StepClosedForm(c, k, n);
  }

  /** Stepping once more from the successor is stepping from `c`. */
  lemma {:induction false} StepShift(c: nat, k: nat, n: nat)
    requires c < n
    ensures Step(Succ(c, n), k, n) == Step(c, k + 1, n)
    decreases k
  {
    if k > 0 {
      StepShift(c, k - 1, n);
    }
  }

  /** Within one cycle the steps from `c` land on pairwise different
      slots. */
  lemma StepDistinct(c: nat, k1: nat, k2: nat, n: nat)
    requires c < n && k1 < k2 < n
    ensures Step(c, k1, n) != Step(c, k2, n)
  {
    StepClosedForm(c, k1, n);
    StepClosedForm(c, k2, n);
  }
}
