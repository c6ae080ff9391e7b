/** The step counter of the `Stepper` motor driver (src/steppers.h): a
    target position and a current position, both `int64_t`, and `update`,
    which emits one step pulse towards the target per call. */
module Steppers {
  import opened Machine

  /** `targStep` and `currStep`. */
  datatype Position = Position(targ: int64, curr: int64)

  /** `distFromTargStep()` as a mathematical integer. */
  function Dist(p: Position): int
  {
    p.targ - p.curr
  }

  function Abs(x: int): nat
  {
    if x < 0 then -x else x
  }

  /** The effect of `update()` on the counters: one step towards the
      target, nothing when already there. The target never changes, the
      distance shrinks by exactly one and never changes sign, and the new
      current position stays within `int64_t`. */
  function Updated(p: Position): (q: Position)
    ensures q.targ == p.targ
    ensures Dist(p) == 0 ==> q == p
    ensures Dist(p) != 0 ==> Abs(Dist(q)) == Abs(Dist(p)) - 1
    ensures Dist(p) > 0 ==> Dist(q) >= 0
    ensures Dist(p) < 0 ==> Dist(q) <= 0
  {
    if p.targ != p.curr then
      var dir := if p.targ > p.curr then 1 else -1;
      p.(curr := p.curr + dir)
    else p
  }

  /** `n` calls of `update()`. */
  function UpdatedTimes(p: Position, n: nat): Position
    decreases n
  {
    if n == 0 then p else UpdatedTimes(Updated(p), n - 1)
  }

  /** After `k` updates, no more than the distance, the distance has
      shrunk by exactly `k` towards zero. */
  lemma {:induction false} UpdatedTimesDist(p: Position, k: nat)
    requires k <= Abs(Dist(p))
    ensures UpdatedTimes(p, k).targ == p.targ
    ensures Abs(Dist(UpdatedTimes(p, k))) == Abs(Dist(p)) - k
    ensures Dist(p) >= 0 ==> Dist(UpdatedTimes(p, k)) == Dist(p) - k
    ensures Dist(p) <= 0 ==> Dist(UpdatedTimes(p, k)) == Dist(p) + k
    decreases k
  {
    if k > 0 {
      UpdatedTimesDist(Updated(p), k - 1);
    }
  }

  /** Once at the target, further updates change nothing. */
  lemma {:induction false} UpdatedTimesAtTarget(p: Position, n: nat)
    requires Dist(p) == 0
    ensures UpdatedTimes(p, n) == p
    decreases n
  {
    if n > 0 {
      UpdatedTimesAtTarget(Updated(p), n - 1);
    }
  }

  /** `|distFromTargStep()|` updates bring the motor to its target, no
      fewer do, and any number of further updates keep it there. */
  lemma ReachesTarget(p: Position, extra: nat)
    ensures UpdatedTimes(p, Abs(Dist(p)) + extra) == Position(p.targ, p.targ)
    ensures forall k: nat | k < Abs(Dist(p)) :: UpdatedTimes(p, k).curr != p.targ
  {
    UpdatedTimesDist(p, Abs(Dist(p)));
    var q := UpdatedTimes(p, Abs(Dist(p)));
    UpdatedTimesSplit(p, Abs(Dist(p)), extra);
    UpdatedTimesAtTarget(q, extra);
    forall k: nat | k < Abs(Dist(p))
      ensures UpdatedTimes(p, k).curr != p.targ
    {
      UpdatedTimesDist(p, k);
    }
  }

  /** `n + m` updates are `n` updates followed by `m`. */
  lemma {:induction false} UpdatedTimesSplit(p: Position, n: nat, m: nat)
    ensures UpdatedTimes(p, n + m) == UpdatedTimes(UpdatedTimes(p, n), m)
    decreases n
  {
    if n > 0 {
      UpdatedTimesSplit(Updated(p), n - 1, m);
    }
  }

  /** `Stepper`: the two pin numbers and the two counters. */
  class Stepper {
    var dPin: uint8
    var sPin: uint8
    var targStep: int64
    var currStep: int64

    function Pos(): Position
      reads this
    {
      Position(targStep, currStep)
    }

    /** `Stepper()`: both pins 0, both counters 0. */
    constructor ()
      ensures Pos() == Position(0, 0) && dPin == 0 && sPin == 0
    {
      dPin, sPin := 0, 0;
      targStep, currStep := 0, 0;
    }

    /** `Stepper(sPin, dPin)`. */
    constructor WithPins(sPin: uint8, dPin: uint8)
      ensures Pos() == Position(0, 0) && this.dPin == dPin && this.sPin == sPin
    {
      this.dPin, this.sPin := dPin, sPin;
      targStep, currStep := 0, 0;
    }

    /** `update()`: `stepped` says whether a pulse went out on `sPin` and
        `forward` is the level written to `dPin` before it. */
    method Update() returns (stepped: bool, forward: bool)
      modifies this
      ensures Pos() == Updated(old(Pos()))
      ensures dPin == old(dPin) && sPin == old(sPin)
      ensures stepped <==> old(targStep) != old(currStep)
      ensures stepped ==> (forward <==> old(targStep) > old(currStep))
    {
      stepped, forward := false, false;
      if targStep != currStep {
        var dir := if targStep > currStep then 1 else -1;
        currStep := currStep + dir;
        stepped, forward := true, dir == 1;
      }
    }

    /** `distFromTargStep()`: the `int64_t` difference, which the caller
        must keep from overflowing. Its sign is the direction of the next
        step, it is zero exactly at the target, and its magnitude is the
        number of `update()` calls that reach the target. */
    function DistFromTargStep(): (r: int64)
      reads this
      requires -0x8000_0000_0000_0000 <= targStep - currStep < 0x8000_0000_0000_0000
      ensures r == 0 <==> Updated(Pos()) == Pos()
      ensures r > 0 <==> Updated(Pos()).curr > currStep
      ensures UpdatedTimes(Pos(), Abs(r)) == Position(targStep, targStep)
    {
      ReachesTarget(Pos(), 0);
      targStep - currStep
    }

    /** `Zero()`. */
    method Zero()
      modifies this
      ensures Pos() == Position(0, 0) && dPin == old(dPin) && sPin == old(sPin)
    {
      currStep := 0;
      targStep := 0;
    }

    /** `absTargStep(trg)`: only the target changes. */
    method AbsTargStep(trg: int64)
      modifies this
      ensures Pos() == Position(trg, old(currStep)) && dPin == old(dPin) && sPin == old(sPin)
    {
      targStep := trg;
    }

    /** `relTargStep(trg)`: the target moves by `trg`; the `int64_t`
        addition must not overflow. */
    method RelTargStep(trg: int64)
      requires -0x8000_0000_0000_0000 <= targStep + trg < 0x8000_0000_0000_0000
      modifies this
      ensures Pos() == Position(old(targStep) + trg, old(currStep)) && dPin == old(dPin) && sPin == old(sPin)
    {
      targStep := targStep + trg;
    }
  }
}
