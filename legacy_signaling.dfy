/** The older `Semaphore` (aliased `Mutex`) and its `LockGuard`
    (include/datatypes/Signaling.h). A task that already owns the lock gets
    it again at once, and `unlock` frees the lock whoever calls it. */
module LegacySignaling {
  import opened Machine
  import opened Polling

  /** The critical section of `lockImmediate`: the owner succeeds without
      change, a free lock is taken, a lock held by another task is left
      alone. The bool is the result. */
  function TryLock(s: LockState, caller: TaskId): (LockState, bool)
  {
    if s.owner == caller then (s, true)
    else if s.free then (LockState(false, caller), true)
    else (s, false)
  }

  /** `unlock`: the lock becomes free, without looking at the caller. */
  function Released(s: LockState): LockState
  {
    LockState(true, NoTask)
  }

  /** What an operation of another task does to the lock. */
  function Effect(s: LockState, op: LockOp): LockState
  {
    match op
    case Acquire(t) => TryLock(s, t).0
    case Release(_) => Released(s)
  }

  /** The effect of `lock()`: the owner returns at once; anyone else waits
      for a free lock and takes it. */
  function LockAll(s: LockState, caller: TaskId, env: Env): Waited
  {
    if s.owner == caller then Waited(s, true, env)
    else
      var w := Wait(Effect, s, env);
      if w.freed then w.(state := LockState(false, caller)) else w
  }

  /** The effect of `lock(timeout)`: the deadline `timeout + millis()` is
      read first; the owner then succeeds at once; anyone else runs the
      loop that reads the clock before each yield. */
  function LockFor(s: LockState, caller: TaskId, timeout: uint64, env: Env): Polled
  {
    if env.clock == [] then Polled(s, Pending, env)
    else if s.owner == caller then Polled(s, Returned(true), env.Tick())
    else
      var p := PollWait(Effect, s, Add64(timeout, env.clock[0]), env.Tick());
      if p.outcome == Returned(true) then p.(state := LockState(false, caller)) else p
  }

  /** Operations of other tasks keep `_lock == (_locking_task == 0xFF)`. */
  lemma EffectKeepsInv()
    ensures KeepsInv(Effect)
  {
  }

  /** `lock()` returns only with the caller owning the lock; while it is
      still waiting, the lock is taken by someone. */
  lemma LockAllFacts(s: LockState, caller: TaskId, env: Env)
    requires Inv(s) && RealTasks(env) && caller != NoTask
    ensures var w := LockAll(s, caller, env);
      Inv(w.state) && env.Consumed(w.rest) &&
      (w.freed ==> w.state == LockState(false, caller)) &&
      (!w.freed ==> !w.state.free && w.rest.runs == [])
  {
    if s.owner != caller {
      EffectKeepsInv();
      WaitFacts(Effect, s, env);
    }
  }

  /** The clock side of `lock(timeout)`: a false result comes only after
      a reading strictly beyond the 64-bit deadline. */
  lemma LockForClock(s: LockState, caller: TaskId, timeout: uint64, env: Env)
    ensures var p := LockFor(s, caller, timeout, env);
      var used := |env.clock| - |p.rest.clock|;
      env.Consumed(p.rest) &&
      (p.outcome == Returned(false) ==>
         2 <= used && Add64(timeout, env.clock[0]) < env.clock[used - 1])
  {
    if env.clock != [] && s.owner != caller {
      var d := Add64(timeout, env.clock[0]);
      var e := env.Tick();
      ConsumedTick(env);
      PollWaitClock(Effect, s, d, e);
      var p := PollWait(Effect, s, d, e);
      var r := LockFor(s, caller, timeout, env);
      assert r.rest == p.rest && r.outcome == p.outcome;
      ConsumedTrans(env, e, p.rest);
      var used := |e.clock| - |p.rest.clock|;
      if p.outcome == Returned(false) {
        assert env.clock[used] == e.clock[used - 1];
      }
    } else if env.clock != [] {
      ConsumedTick(env);
    }
  }

  /** The lock side of `lock(timeout)`: true leaves the caller owning the
      lock. */
  lemma LockForState(s: LockState, caller: TaskId, timeout: uint64, env: Env)
    requires Inv(s) && RealTasks(env) && caller != NoTask
    ensures var p := LockFor(s, caller, timeout, env);
      Inv(p.state) &&
      (p.outcome == Returned(true) ==> p.state == LockState(false, caller)) &&
      (p.outcome == Returned(false) ==> !p.state.free)
  {
    if env.clock != [] && s.owner != caller {
      EffectKeepsInv();
      assert RealTasks(env.Tick());
      PollWaitState(Effect, s, Add64(timeout, env.clock[0]), env.Tick());
    }
  }

  /** `lock(timeout)` reports true only with the caller owning the lock
      (the converse is `LockForOwnsIff`); false only after a clock reading
      strictly beyond the 64-bit sum of `timeout` and the first reading,
      with the lock still taken. */
  lemma LockForFacts(s: LockState, caller: TaskId, timeout: uint64, env: Env)
    requires Inv(s) && RealTasks(env) && caller != NoTask
    ensures var p := LockFor(s, caller, timeout, env);
      var used := |env.clock| - |p.rest.clock|;
      Inv(p.state) && env.Consumed(p.rest) &&
      (p.outcome == Returned(true) ==> p.state == LockState(false, caller)) &&
      (p.outcome == Returned(false) ==>
         2 <= used && Add64(timeout, env.clock[0]) < env.clock[used - 1] && !p.state.free)
  {
    LockForClock(s, caller, timeout, env);
    LockForState(s, caller, timeout, env);
  }

  /** Operations of other tasks never hand the lock to the caller. */
  lemma {:induction false} RunNeverGrants(caller: TaskId, s: LockState, ops: seq<LockOp>)
    requires s.owner != caller && caller != NoTask
    requires forall j :: 0 <= j < |ops| ==> ops[j].Task() != caller
    ensures Run(Effect, s, ops).owner != caller
    decreases |ops|
  {
    if ops != [] {
      RunNeverGrants(caller, Effect(s, ops[0]), ops[1..]);
    }
  }

  /** Nor does the polling loop, which only lets the other tasks run. */
  lemma {:induction false} PollWaitNeverGrants(caller: TaskId, s: LockState, deadline: uint64, env: Env)
    requires s.owner != caller && caller != NoTask && ByOthers(env, caller)
    ensures PollWait(Effect, s, deadline, env).state.owner != caller
    decreases |env.clock|
  {
    if !s.free && env.clock != [] && !(deadline < env.clock[0]) && env.runs != [] {
      RunNeverGrants(caller, s, env.runs[0]);
      assert ByOthers(env.Tick(), caller);
      ByOthersStep(env.Tick(), caller);
      PollWaitNeverGrants(caller, Run(Effect, s, env.runs[0]), deadline, env.Tick().Step());
    }
  }

  /** With the owner check in place, a finished `lock(timeout)` reports
      true exactly when the caller owns the lock afterwards, as long as no
      other task acts under the caller's identity. */
  lemma LockForOwnsIff(s: LockState, caller: TaskId, timeout: uint64, env: Env)
    requires Inv(s) && ByOthers(env, caller) && caller != NoTask
    ensures var p := LockFor(s, caller, timeout, env);
      p.outcome != Pending ==> (p.outcome == Returned(true) <==> p.state.owner == caller)
  {
    if env.clock != [] && s.owner != caller {
      assert ByOthers(env.Tick(), caller);
      PollWaitNeverGrants(caller, s, Add64(timeout, env.clock[0]), env.Tick());
    }
  }

  /** Re-locking by the owner neither waits nor changes the lock, through
      all three ways of locking. */
  lemma ReLockReturns(caller: TaskId, timeout: uint64, env: Env)
    requires caller != NoTask && |env.clock| > 0
    ensures var s := LockState(false, caller);
      LockAll(s, caller, env) == Waited(s, true, env) &&
      LockFor(s, caller, timeout, env) == Polled(s, Returned(true), env.Tick()) &&
      TryLock(s, caller) == (s, true)
  {
  }

  /** Ownership is not enforced: one run of another task that unlocks and
      then locks leaves the lock held by that task, whoever held it before. */
  lemma OtherTaskTakesOver(a: TaskId, b: TaskId)
    requires a != b && b != NoTask
    ensures Run(Effect, LockState(false, a), [Release(b), Acquire(b)]) == LockState(false, b)
  {
    var ops := [Release(b), Acquire(b)];
    assert ops[1..] == [Acquire(b)] && ops[1..][1..] == [];
    assert Run(Effect, LockState(false, a), ops) == Run(Effect, LockState(true, NoTask), [Acquire(b)]);
  }

  /** Nesting two guards on one lock in one task: the inner guard's
      constructor returns at once, its destructor frees the lock while the
      outer guard is still in scope. */
  lemma NestedGuardFreesOuter(caller: TaskId, env: Env)
    requires caller != NoTask
    ensures var outer := LockAll(LockState(true, NoTask), caller, env);
      outer.state == LockState(false, caller) &&
      LockAll(outer.state, caller, outer.rest) == Waited(outer.state, true, outer.rest) &&
      Released(outer.state).free
  {
  }

  /** `Semaphore` of include/datatypes/Signaling.h. */
  class Semaphore {
    /** `_lock`: true when the lock can be taken. */
    var free: bool
    /** `_locking_task`. */
    var owner: TaskId

    function State(): LockState reads this { LockState(free, owner) }

    predicate Valid() reads this { Inv(State()) }

    /** A new lock is available and owned by nobody. */
    constructor ()
      ensures State() == LockState(true, NoTask) && Valid()
    {
      free, owner := true, NoTask;
    }

    /** One `OS.yield()`: the other tasks run and operate on this lock. */
    method Interleave(ops: seq<LockOp>)
      modifies this
      ensures State() == Run(Effect, old(State()), ops)
    {
      var s := Run(Effect, State(), ops);
      free, owner := s.free, s.owner;
    }

    /** `lock()`. `masked` tells that the call returns with interrupts still
        disabled, which happens exactly on the owner's early return. */
    method Lock(caller: TaskId, env: Env) returns (returned: bool, masked: bool, rest: Env)
      modifies this
      ensures LockAll(old(State()), caller, env) == Waited(State(), returned, rest)
      ensures masked <==> old(owner) == caller
    {
      if owner == caller {
        return true, true, env;
      }
      masked := false;
      rest := env;
      while !free && rest.runs != []
        invariant Wait(Effect, old(State()), env) == Wait(Effect, State(), rest)
        decreases |rest.runs|
      {
        Interleave(rest.runs[0]);
        rest := rest.Step();
      }
      returned := free;
      if free {
        free, owner := false, caller;
      }
    }

    /** `lock(timeout)`. */
    method LockTimeout(caller: TaskId, timeout: uint64, env: Env) returns (r: Call<bool>, rest: Env)
      modifies this
      ensures LockFor(old(State()), caller, timeout, env) == Polled(State(), r, rest)
    {
      if env.clock == [] {
        r, rest := Pending, env;
        return;
      }
      var deadline := Add64(timeout, env.clock[0]);
      rest := env.Tick();
      if owner == caller {
        r := Returned(true);
        return;
      }
      ghost var start := rest;
      while !free
        invariant PollWait(Effect, old(State()), deadline, start) == PollWait(Effect, State(), deadline, rest)
        decreases |rest.clock|
      {
        if rest.clock == [] {
          r := Pending;
          return;
        }
        if deadline < rest.clock[0] {
          r, rest := Returned(false), rest.Tick();
          return;
        }
        rest := rest.Tick();
        if rest.runs == [] {
          r := Pending;
          return;
        }
        Interleave(rest.runs[0]);
        rest := rest.Step();
      }
      free, owner := false, caller;
      r := Returned(true);
    }

    /** `lockImmediate()`. */
    method LockImmediate(caller: TaskId) returns (ok: bool)
      modifies this
      ensures (State(), ok) == TryLock(old(State()), caller)
    {
      if owner == caller {
        return true;
      }
      if free {
        free, owner := false, caller;
        ok := true;
      } else {
        ok := false;
      }
    }

    /** `unlock()`: frees the lock for any caller. */
    method Unlock()
      modifies this
      ensures State() == Released(old(State())) && Valid()
    {
      owner, free := NoTask, true;
    }

    /** `available()`. */
    function Available(): (r: bool)
      reads this
      requires Valid()
      ensures r <==> owner == NoTask
    {
      free
    }
  }

  /** `LockGuard` of include/datatypes/Signaling.h: `lock()` on
      construction, `unlock()` on destruction. */
  class LockGuard {
    const m: Semaphore
    const caller: TaskId
    var locked: bool
    var rest: Env

    constructor (m: Semaphore, caller: TaskId, env: Env)
      modifies m
      ensures this.m == m && this.caller == caller
      ensures LockAll(old(m.State()), caller, env) == Waited(m.State(), locked, rest)
    {
      this.m := m;
      this.caller := caller;
      var returned, _, left := m.Lock(caller, env);
      locked, rest := returned, left;
    }

    /** `~LockGuard()`: frees the lock, even if an enclosing guard of the
        same task still relies on it. */
    method Destroy()
      modifies m
      ensures m.State() == LockState(true, NoTask)
    {
      m.Unlock();
    }
  }
}
