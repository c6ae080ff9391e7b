/** The older preemptive kernel of src/sceduler.cpp: a timer interrupt
    that scans the task table for the next task whose `_validTime` has been
    reached, and `os_delay`, which puts the running task to sleep. Saving
    and loading register context is not modelled. */
module IsrKernel {
  import opened Machine
  import opened Ring

  /** `MAX_TASK_COUNT`, the size of `tasks[]`. */
  const MaxTaskCount: nat := 8

  /** Stepping `k in [1, k0]` from `start`, `k0` is the first place whose
      task is eligible at time `m`. */
  ghost predicate FirstEligible(vt: seq<uint32>, n: nat, start: nat, m: uint32, k0: nat)
    requires start < n <= |vt|
  {
    1 <= k0 <= n && vt[Step(start, k0, n)] <= m &&
    forall j :: 1 <= j < k0 ==> vt[Step(start, j, n)] > m
  }

  /** The outcome of one scan from `start` with clock reading `m`: it
      finds a task exactly when some task has `_validTime <= m`; it then
      stops at the first such task after `start` (examining `start` itself
      last); otherwise, after one full cycle, it is back at `start` and the
      real loop would spin for ever. */
  ghost predicate Scanned(vt: seq<uint32>, n: nat, start: nat, m: uint32, found: bool, c: nat)
    requires start < n <= |vt|
  {
    (found <==> exists i :: 0 <= i < n && vt[i] <= m) &&
    (found ==> exists k0 :: FirstEligible(vt, n, start, m, k0) && c == Step(start, k0, n)) &&
    (!found ==> c == start)
  }

  /** Where the loop stops after `k0` steps: on an eligible task, or after
      a full cycle of ineligible ones back at `start`. */
  lemma ScanOutcome(vt: seq<uint32>, n: nat, start: nat, m: uint32, k0: nat)
    requires start < n <= |vt| && 1 <= k0 <= n
    requires forall j :: 1 <= j < k0 ==> vt[Step(start, j, n)] > m
    requires vt[Step(start, k0, n)] > m ==> k0 == n
    ensures Scanned(vt, n, start, m, vt[Step(start, k0, n)] <= m, Step(start, k0, n))
  {
    if vt[Step(start, k0, n)] <= m {
      assert FirstEligible(vt, n, start, m, k0);
    } else {
      forall i | 0 <= i < n
        ensures vt[i] > m
      {
        StepCovers(start, i, n);
      }
      StepClosedForm(start, n, n);
    }
  }

  /** `millis() + ms` wraps past 2^32: the deadline lies before the current
      time, so the sleeping task is eligible at once. */
  lemma OverflowedDeadlineEligible(now: uint32, ms: uint32, m: uint32)
    requires now as int + ms as int >= Word32 && now <= m
    ensures Add32(now, ms) <= m
  {
  }

  /** Without wrap-around the task sleeps until `now + ms`. */
  lemma DeadlineWithoutOverflow(now: uint32, ms: uint32, m: uint32)
    requires now as int + ms as int < Word32
    ensures Add32(now, ms) <= m <==> now as int + ms as int <= m as int
  {
  }

  /** The globals `tasks[]` (their `_validTime`), `num_tasks` and
      `curr_task_num`. */
  class IsrScheduler {
    const validTime: array<uint32>
    var numTasks: uint8
    var curr: uint8

    /** The table has its fixed size, holds at least the standby task, and
        the current index lies within it. */
    predicate Valid()
      reads this
    {
      validTime.Length == MaxTaskCount && 0 < numTasks as nat <= MaxTaskCount && curr < numTasks
    }

    /** A table of `n` tasks, running task `c`, with the given wake-up
        times. */
    constructor (times: seq<uint32>, n: uint8, c: uint8)
      requires |times| == MaxTaskCount && 0 < n as nat <= MaxTaskCount && c < n
      ensures Valid() && validTime[..] == times && numTasks == n && curr == c
    {
      validTime := new uint32[MaxTaskCount](i requires 0 <= i < MaxTaskCount => times[i]);
      numTasks, curr := n, c;
    }

    /** The task-selection scan of the scheduler interrupt, all comparisons
        against the one reading `m`. */
    method Switch(m: uint32) returns (found: bool)
      requires Valid()
      modifies this
      ensures Valid() && numTasks == old(numTasks) && curr < numTasks
      ensures Scanned(validTime[..], numTasks as nat, old(curr) as nat, m, found, curr as nat)
    {
      var n := numTasks as nat;
      ghost var vt := validTime[..];
      ghost var start := curr as nat;
      var c := curr as nat;
      SuccIsMod(c, n);
      c := (c + 1) % n;
      var k := 1;
      while validTime[c] > m && k < n
        invariant 1 <= k <= n && c == Step(start, k, n)
        invariant numTasks == old(numTasks) && curr == old(curr)
        invariant forall j :: 1 <= j < k ==> vt[Step(start, j, n)] > m
        decreases n - k
      {
        SuccIsMod(c, n);
        c := (c + 1) % n;
        k := k + 1;
      }
      found := validTime[c] <= m;
      ScanOutcome(vt, n, start, m, k);
      curr := c as uint8;
    }

    /** `os_delay(ms)`: the running task's `_validTime` becomes
        `millis() + ms` (reading `now`) with 32-bit wrap-around, then the
        scheduler interrupt runs with its own reading `m`. */
    method OsDelay(ms: uint32, now: uint32, m: uint32) returns (found: bool)
      requires Valid()
      modifies this, validTime
      ensures Valid() && numTasks == old(numTasks) && curr < numTasks
      ensures validTime[..] == old(validTime[..])[old(curr) := Add32(now, ms)]
      ensures Scanned(validTime[..], numTasks as nat, old(curr) as nat, m, found, curr as nat)
    {
      validTime[curr] := Add32(now, ms);
      found := Switch(m);
    }

    /** One pass of `os_standby_task`: it only yields, so it never changes
        any `_validTime`; when it is itself awake the scan always finds a
        task. */
    method StandbyYield(m: uint32) returns (found: bool)
      requires Valid() && validTime[curr] <= m
      modifies this
      ensures Valid() && numTasks == old(numTasks) && found
      ensures Scanned(validTime[..], numTasks as nat, old(curr) as nat, m, found, curr as nat)
    {
      found := Switch(m);
    }
  }
}
