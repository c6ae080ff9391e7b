/** The ownership-tracked `Semaphore` of the newer revision and its scoped
    `LockGuard` (src/datatypes/Signaling.h). Locking is not re-entrant and
    `unlock` checks the owner. */
module Signaling {
  import opened Machine
  import opened Polling

  /** The critical section of `lockImmediate`: a free lock is taken by the
      caller; a taken one is left alone. The bool is the result. */
  function TryLock(s: LockState, caller: TaskId): (LockState, bool)
  {
    if s.free then (LockState(false, caller), true) else (s, false)
  }

  /** `unlock`: only the owner frees the lock; anyone else gets false. */
  function Unlocked(s: LockState, caller: TaskId): (LockState, bool)
  {
    if s.owner != caller then (s, false) else (LockState(true, NoTask), true)
  }

  /** What an operation of another task does to the lock. */
  function Effect(s: LockState, op: LockOp): LockState
  {
    match op
    case Acquire(t) => TryLock(s, t).0
    case Release(t) => Unlocked(s, t).0
  }

  /** The effect of `lock()`: the lock after the wait, taken by the caller
      if the wait ended. */
  function LockAll(s: LockState, caller: TaskId, env: Env): Waited
  {
    var w := Wait(Effect, s, env);
    if w.freed then w.(state := LockState(false, caller)) else w
  }

  /** The effect of `lock(timeout)`: the deadline is `timeout + millis()`
      in 64-bit arithmetic, then the wait, then the take on success. */
  function LockFor(s: LockState, caller: TaskId, timeout: uint64, env: Env): Polled
  {
    if env.clock == [] then Polled(s, Pending, env)
    else
      var p := PollWait(Effect, s, Add64(timeout, env.clock[0]), env.Tick());
      if p.outcome == Returned(true) then p.(state := LockState(false, caller)) else p
  }

  /** Operations of other tasks keep `_lock == (_locking_task == 0xFF)`. */
  lemma EffectKeepsInv()
    ensures KeepsInv(Effect)
  {
  }

  /** `lock()` returns only with the caller owning the lock; if it is
      still waiting, the lock is taken by someone. */
  lemma LockAllFacts(s: LockState, caller: TaskId, env: Env)
    requires Inv(s) && RealTasks(env) && caller != NoTask
    ensures var w := LockAll(s, caller, env);
      Inv(w.state) && env.Consumed(w.rest) &&
      (w.freed ==> w.state == LockState(false, caller)) &&
      (!w.freed ==> !w.state.free && w.rest.runs == [])
  {
    EffectKeepsInv();
    WaitFacts(Effect, s, env);
  }

  /** The clock side of `lock(timeout)`: a false result comes only after
      a reading strictly beyond the 64-bit deadline. */
  lemma LockForClock(s: LockState, caller: TaskId, timeout: uint64, env: Env)
    ensures var p := LockFor(s, caller, timeout, env);
      var used := |env.clock| - |p.rest.clock|;
      env.Consumed(p.rest) &&
      (p.outcome == Returned(false) ==>
         2 <= used && Add64(timeout, env.clock[0]) < env.clock[used - 1])
  {
    if env.clock != [] {
      var d := Add64(timeout, env.clock[0]);
      var e := env.Tick();
      ConsumedTick(env);
      PollWaitClock(Effect, s, d, e);
      var p := PollWait(Effect, s, d, e);
      var r := LockFor(s, caller, timeout, env);
      assert r.rest == p.rest && r.outcome == p.outcome;
      ConsumedTrans(env, e, p.rest);
      var used := |e.clock| - |p.rest.clock|;
      if p.outcome == Returned(false) {
        assert env.clock[used] == e.clock[used - 1];
      }
    }
  }

  /** The lock side of `lock(timeout)`: true leaves the caller owning the
      lock. */
  lemma LockForState(s: LockState, caller: TaskId, timeout: uint64, env: Env)
    requires Inv(s) && RealTasks(env) && caller != NoTask
    ensures var p := LockFor(s, caller, timeout, env);
      Inv(p.state) &&
      (p.outcome == Returned(true) ==> p.state == LockState(false, caller)) &&
      (p.outcome == Returned(false) ==> !p.state.free)
  {
    if env.clock != [] {
      EffectKeepsInv();
      assert RealTasks(env.Tick());
      PollWaitState(Effect, s, Add64(timeout, env.clock[0]), env.Tick());
    }
  }

  /** `lock(timeout)` reports true only with the caller owning the lock
      (an owner that re-locks never gets true, `ReLockForNeverAcquires`);
      false only after a clock reading strictly beyond the 64-bit sum of
      `timeout` and the first reading, with the lock still taken. */
  lemma LockForFacts(s: LockState, caller: TaskId, timeout: uint64, env: Env)
    requires Inv(s) && RealTasks(env) && caller != NoTask
    ensures var p := LockFor(s, caller, timeout, env);
      var used := |env.clock| - |p.rest.clock|;
      Inv(p.state) && env.Consumed(p.rest) &&
      (p.outcome == Returned(true) ==> p.state == LockState(false, caller)) &&
      (p.outcome == Returned(false) ==>
         2 <= used && Add64(timeout, env.clock[0]) < env.clock[used - 1] && !p.state.free)
  {
    LockForClock(s, caller, timeout, env);
    LockForState(s, caller, timeout, env);
  }

  /** The deadline wraps: with `timeout` close to 2^64 the sum is small and
      the first later reading already lies beyond it, so `lock(timeout)`
      on a taken lock gives up at once instead of waiting for ever. */
  lemma LockForDeadlineWraps(s: LockState, caller: TaskId)
    requires !s.free
    ensures LockFor(s, caller, Word64 - 1, Env([1, 1], [])).outcome == Returned(false)
  {
    assert Add64(Word64 - 1, 1) == 0;
  }

  /** Only its owner can free a taken lock: operations of other tasks leave
      a lock held by `a` exactly as it is. */
  lemma {:induction false} RunKeepsOwner(a: TaskId, ops: seq<LockOp>)
    requires forall j :: 0 <= j < |ops| ==> ops[j].Task() != a
    ensures Run(Effect, LockState(false, a), ops) == LockState(false, a)
    decreases |ops|
  {
    if ops != [] {
      RunKeepsOwner(a, ops[1..]);
    }
  }

  /** Nor can operations of other tasks hand the lock to the caller. */
  lemma {:induction false} RunNeverGrants(caller: TaskId, s: LockState, ops: seq<LockOp>)
    requires s.owner != caller && caller != NoTask
    requires forall j :: 0 <= j < |ops| ==> ops[j].Task() != caller
    ensures Run(Effect, s, ops).owner != caller
    decreases |ops|
  {
    if ops != [] {
      RunNeverGrants(caller, Effect(s, ops[0]), ops[1..]);
    }
  }

  /** There is no re-entry check: a task that calls `lock()` on a lock it
      already holds waits for itself and never returns, whatever the other
      tasks do. */
  lemma {:induction false} ReLockNeverReturns(caller: TaskId, env: Env)
    requires ByOthers(env, caller)
    ensures !Wait(Effect, LockState(false, caller), env).freed
    decreases |env.runs|
  {
    if env.runs != [] {
      RunKeepsOwner(caller, env.runs[0]);
      ByOthersStep(env, caller);
      ReLockNeverReturns(caller, env.Step());
    }
  }

  /** The same re-lock through `lock(timeout)` never reports success. */
  lemma {:induction false} ReLockForNeverAcquires(caller: TaskId, deadline: uint64, env: Env)
    requires ByOthers(env, caller)
    ensures PollWait(Effect, LockState(false, caller), deadline, env).outcome != Returned(true)
    decreases |env.clock|
  {
    var s := LockState(false, caller);
    if env.clock != [] && !(deadline < env.clock[0]) && env.runs != [] {
      RunKeepsOwner(caller, env.runs[0]);
      ByOthersStep(env, caller);
      assert ByOthers(env.Tick().Step(), caller);
      ReLockForNeverAcquires(caller, deadline, env.Tick().Step());
    }
  }

  /** `lockImmediate` followed by `unlock` from the same task restores a
      free lock; on a taken lock `lockImmediate` fails and changes nothing. */
  lemma TryLockThenUnlock(s: LockState, caller: TaskId)
    requires Inv(s) && caller != NoTask
    ensures s.free ==> Unlocked(TryLock(s, caller).0, caller) == (s, true)
    ensures !s.free ==> TryLock(s, caller) == (s, false)
    ensures Inv(TryLock(s, caller).0) && Inv(Unlocked(s, caller).0)
  {
  }

  /** `Semaphore` of src/datatypes/Signaling.h. */
  class Semaphore {
    /** `_lock`: true when the lock can be taken. */
    var free: bool
    /** `_locking_task`. */
    var owner: TaskId

    function State(): LockState reads this { LockState(free, owner) }

    predicate Valid() reads this { Inv(State()) }

    /** A new lock is available and owned by nobody. */
    constructor ()
      ensures State() == LockState(true, NoTask) && Valid()
    {
      free, owner := true, NoTask;
    }

    /** One `OS.yield()`: the other tasks run and operate on this lock. */
    method Interleave(ops: seq<LockOp>)
      modifies this
      ensures State() == Run(Effect, old(State()), ops)
    {
      var s := Run(Effect, State(), ops);
      free, owner := s.free, s.owner;
    }

    /** `lock()`: yield until the lock is free, then take it. */
    method Lock(caller: TaskId, env: Env) returns (returned: bool, rest: Env)
      modifies this
      ensures LockAll(old(State()), caller, env) == Waited(State(), returned, rest)
    {
      rest := env;
      while !free && rest.runs != []
        invariant Wait(Effect, old(State()), env) == Wait(Effect, State(), rest)
        decreases |rest.runs|
      {
        Interleave(rest.runs[0]);
        rest := rest.Step();
      }
      returned := free;
      if free {
        free, owner := false, caller;
      }
    }

    /** `lock(timeout)`: as `lock()`, but gives up with false once a clock
        reading lies strictly beyond `timeout + millis()`. */
    method LockTimeout(caller: TaskId, timeout: uint64, env: Env) returns (r: Call<bool>, rest: Env)
      modifies this
      ensures LockFor(old(State()), caller, timeout, env) == Polled(State(), r, rest)
    {
      if env.clock == [] {
        r, rest := Pending, env;
        return;
      }
      var deadline := Add64(timeout, env.clock[0]);
      rest := env.Tick();
      ghost var start := rest;
      while !free
        invariant PollWait(Effect, old(State()), deadline, start) == PollWait(Effect, State(), deadline, rest)
        decreases |rest.clock|
      {
        if rest.clock == [] {
          r := Pending;
          return;
        }
        if deadline < rest.clock[0] {
          r, rest := Returned(false), rest.Tick();
          return;
        }
        rest := rest.Tick();
        if rest.runs == [] {
          r := Pending;
          return;
        }
        Interleave(rest.runs[0]);
        rest := rest.Step();
      }
      free, owner := false, caller;
      r := Returned(true);
    }

    /** `lockImmediate()`: take the lock if it is free, never wait. */
    method LockImmediate(caller: TaskId) returns (ok: bool)
      modifies this
      ensures (State(), ok) == TryLock(old(State()), caller)
    {
      if free {
        free, owner := false, caller;
        ok := true;
      } else {
        ok := false;
      }
    }

    /** `unlock()`: only the owner frees the lock. `masked` tells that the
        call returns with interrupts still disabled, which happens exactly
        on the failing path. */
    method Unlock(caller: TaskId) returns (ok: bool, masked: bool)
      modifies this
      ensures (State(), ok) == Unlocked(old(State()), caller)
      ensures masked == !ok
    {
      if owner != caller {
        return false, true;
      }
      owner, free := NoTask, true;
      ok, masked := true, false;
    }

    /** `available()`. */
    function Available(): (r: bool)
      reads this
      requires Valid()
      ensures r <==> owner == NoTask
    {
      free
    }

    /** `getOwner()`. */
    function GetOwner(): (r: TaskId)
      reads this
      requires Valid()
      ensures r == NoTask <==> free
    {
      owner
    }
  }

  /** `LockGuard` of src/datatypes/Signaling.h: `lock()` on construction,
      `unlock()` of the same lock on destruction. `locked` records whether
      the constructor's `lock()` returned within the environment, `rest`
      what it left of the environment. */
  class LockGuard {
    const m: Semaphore
    const caller: TaskId
    var locked: bool
    var rest: Env

    constructor (m: Semaphore, caller: TaskId, env: Env)
      modifies m
      ensures this.m == m && this.caller == caller
      ensures LockAll(old(m.State()), caller, env) == Waited(m.State(), locked, rest)
    {
      this.m := m;
      this.caller := caller;
      var returned, left := m.Lock(caller, env);
      locked, rest := returned, left;
    }

    /** `~LockGuard()`: unlock the lock taken by the constructor. */
    method Destroy()
      modifies m
      ensures m.State() == Unlocked(old(m.State()), caller).0
    {
      var _, _ := m.Unlock(caller);
    }
  }
}
