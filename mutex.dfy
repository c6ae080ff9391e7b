/** The stand-alone `Mutex` and its `LockGuard` (src/Mutex.cpp,
    include/datatypes/Mutex.h). Its critical sections are those of the older
    `Semaphore` (the owner re-locks at once, `unlock` frees for anyone); the
    timed `lock` differs: it yields before it reads the clock. */
module MutexLock {
  import opened Machine
  import opened Polling
  import L = LegacySignaling

  /** The effect of `lock(uint64_t timeout)`: the deadline is read first;
      the owner then succeeds at once; anyone else runs the loop that yields
      before each clock reading. */
  function LockFor(s: LockState, caller: TaskId, timeout: uint64, env: Env): Polled
  {
    if env.clock == [] then Polled(s, Pending, env)
    else if s.owner == caller then Polled(s, Returned(true), env.Tick())
    else
      var p := YieldPoll(L.Effect, s, Add64(timeout, env.clock[0]), env.Tick());
      if p.outcome == Returned(true) then p.(state := LockState(false, caller)) else p
  }

  /** The clock side of `lock(timeout)`: a false result comes only after
      a reading strictly beyond the 64-bit deadline. */
  lemma LockForClock(s: LockState, caller: TaskId, timeout: uint64, env: Env)
    ensures var p := LockFor(s, caller, timeout, env);
      var used := |env.clock| - |p.rest.clock|;
      env.Consumed(p.rest) &&
      (p.outcome == Returned(false) ==>
         2 <= used && Add64(timeout, env.clock[0]) < env.clock[used - 1] &&
         |p.rest.runs| < |env.runs|)
  {
    if env.clock == [] {
      assert LockFor(s, caller, timeout, env).rest == env;
    } else if s.owner == caller {
      assert LockFor(s, caller, timeout, env).rest == env.Tick();
      ConsumedTick(env);
    } else {
      var d := Add64(timeout, env.clock[0]);
      YieldPollClock(L.Effect, s, d, env.Tick());
      var p := YieldPoll(L.Effect, s, d, env.Tick());
      var r := LockFor(s, caller, timeout, env);
      assert r.rest == p.rest && r.outcome == p.outcome;
      TimedOutAfterDeadlineRead(env, p, d);
    }
  }

  /** The deadline reading in front of the loop: whatever the loop
      consumed, the call consumed one reading more. */
  lemma TimedOutAfterDeadlineRead(env: Env, p: Polled, d: uint64)
    requires |env.clock| > 0 && TimedOutAfterYield(env.Tick(), p, d)
    ensures var used := |env.clock| - |p.rest.clock|;
      env.Consumed(p.rest) &&
      (p.outcome == Returned(false) ==>
         2 <= used && d < env.clock[used - 1] && |p.rest.runs| < |env.runs|)
  {
    var e := env.Tick();
    assert e.clock == env.clock[1..] && e.runs == env.runs;
    ConsumedTick(env);
    ConsumedTrans(env, e, p.rest);
    if p.outcome == Returned(false) {
      var used := |e.clock| - |p.rest.clock|;
      assert 1 <= used && d < e.clock[used - 1] && |p.rest.runs| < |e.runs|;
      assert |env.clock| - |p.rest.clock| == used + 1;
      assert env.clock[used] == e.clock[used - 1];
    }
  }

  /** The lock side of `lock(timeout)`: true leaves the caller owning the
      lock. */
  lemma LockForState(s: LockState, caller: TaskId, timeout: uint64, env: Env)
    requires Inv(s) && RealTasks(env) && caller != NoTask
    ensures var p := LockFor(s, caller, timeout, env);
      Inv(p.state) &&
      (p.outcome == Returned(true) ==> p.state == LockState(false, caller))
  {
    if env.clock != [] && s.owner != caller {
      L.EffectKeepsInv();
      assert RealTasks(env.Tick());
      YieldPollState(L.Effect, s, Add64(timeout, env.clock[0]), env.Tick());
    }
  }

  /** A true result leaves the caller owning the lock; a false one comes
      only after at least one yield and a clock reading strictly beyond the
      deadline. The converse of the first half is `LockForOwnsIff`. */
  lemma LockForFacts(s: LockState, caller: TaskId, timeout: uint64, env: Env)
    requires Inv(s) && RealTasks(env) && caller != NoTask
    ensures var p := LockFor(s, caller, timeout, env);
      var used := |env.clock| - |p.rest.clock|;
      Inv(p.state) && env.Consumed(p.rest) &&
      (p.outcome == Returned(true) ==> p.state == LockState(false, caller)) &&
      (p.outcome == Returned(false) ==>
         2 <= used && Add64(timeout, env.clock[0]) < env.clock[used - 1] &&
         |p.rest.runs| < |env.runs|)
  {
    LockForClock(s, caller, timeout, env);
    LockForState(s, caller, timeout, env);
  }

  /** The yield-first polling loop never makes the caller the owner. */
  lemma {:induction false} YieldPollNeverGrants(caller: TaskId, s: LockState, deadline: uint64, env: Env)
    requires s.owner != caller && caller != NoTask && ByOthers(env, caller)
    ensures YieldPoll(L.Effect, s, deadline, env).state.owner != caller
    decreases |env.runs|
  {
    if !s.free && env.runs != [] {
      L.RunNeverGrants(caller, s, env.runs[0]);
      var e := env.Step();
      ByOthersStep(env, caller);
      if e.clock != [] && !(deadline < e.clock[0]) {
        assert ByOthers(e.Tick(), caller);
        YieldPollNeverGrants(caller, Run(L.Effect, s, env.runs[0]), deadline, e.Tick());
      }
    }
  }

  /** A finished `lock(timeout)` reports true exactly when the caller owns
      the mutex afterwards, as long as no other task acts under the
      caller's identity: a timeout never leaves the caller as owner. */
  lemma LockForOwnsIff(s: LockState, caller: TaskId, timeout: uint64, env: Env)
    requires Inv(s) && ByOthers(env, caller) && caller != NoTask
    ensures var p := LockFor(s, caller, timeout, env);
      p.outcome != Pending ==> (p.outcome == Returned(true) <==> p.state.owner == caller)
  {
    if env.clock != [] && s.owner != caller {
      assert ByOthers(env.Tick(), caller);
      YieldPollNeverGrants(caller, s, Add64(timeout, env.clock[0]), env.Tick());
    }
  }

  /** Because the clock is read after the yield and the lock is not looked
      at again, `lock(timeout)` can report false although the yield left
      the lock free: here the holder `a` unlocks during the one yield and
      the next reading is past the deadline. The older `Semaphore` never
      reports false on a free lock (`LegacySignaling.LockForFacts`). */
  lemma TimesOutOnFreedLock(a: TaskId, caller: TaskId)
    requires a != caller && a != NoTask
    ensures var p := LockFor(LockState(false, a), caller, 0, Env([0, 10], [[Release(a)]]));
      p.outcome == Returned(false) && p.state.free
  {
    var e := Env([0, 10], [[Release(a)]]).Tick();
    assert e.runs[0][1..] == [];
    assert Run(L.Effect, LockState(false, a), e.runs[0]) == LockState(true, NoTask);
  }

  /** `Mutex` of src/Mutex.cpp. */
  class Mutex {
    /** `_lock`: true when the lock can be taken. */
    var free: bool
    /** `_locking_task`, compared with the running task `curr`. */
    var owner: TaskId

    function State(): LockState reads this { LockState(free, owner) }

    predicate Valid() reads this { Inv(State()) }

    /** A new mutex is available and owned by `UINT8_MAX`. */
    constructor ()
      ensures State() == LockState(true, NoTask) && Valid()
    {
      free, owner := true, NoTask;
    }

    /** One `OS.yield()`: the other tasks run and operate on this mutex. */
    method Interleave(ops: seq<LockOp>)
      modifies this
      ensures State() == Run(L.Effect, old(State()), ops)
    {
      var s := Run(L.Effect, State(), ops);
      free, owner := s.free, s.owner;
    }

    /** `lock()`. `masked` tells that the call returns with interrupts still
        disabled, which happens exactly on the owner's early return. */
    method Lock(caller: TaskId, env: Env) returns (returned: bool, masked: bool, rest: Env)
      modifies this
      ensures L.LockAll(old(State()), caller, env) == Waited(State(), returned, rest)
      ensures masked <==> old(owner) == caller
    {
      if owner == caller {
        return true, true, env;
      }
      masked := false;
      rest := env;
      while !free && rest.runs != []
        invariant Wait(L.Effect, old(State()), env) == Wait(L.Effect, State(), rest)
        decreases |rest.runs|
      {
        Interleave(rest.runs[0]);
        rest := rest.Step();
      }
      returned := free;
      if free {
        free, owner := false, caller;
      }
    }

    /** `lock(uint64_t timeout)`. */
    method LockTimeout(caller: TaskId, timeout: uint64, env: Env) returns (r: Call<bool>, rest: Env)
      modifies this
      ensures LockFor(old(State()), caller, timeout, env) == Polled(State(), r, rest)
    {
      if env.clock == [] {
        r, rest := Pending, env;
        return;
      }
      var deadline := Add64(timeout, env.clock[0]);
      rest := env.Tick();
      if owner == caller {
        r := Returned(true);
        return;
      }
      ghost var start := rest;
      while !free
        invariant YieldPoll(L.Effect, old(State()), deadline, start) == YieldPoll(L.Effect, State(), deadline, rest)
        decreases |rest.runs|
      {
        if rest.runs == [] {
          r := Pending;
          return;
        }
        Interleave(rest.runs[0]);
        rest := rest.Step();
        if rest.clock == [] {
          r := Pending;
          return;
        }
        if deadline < rest.clock[0] {
          r, rest := Returned(false), rest.Tick();
          return;
        }
        rest := rest.Tick();
      }
      free, owner := false, caller;
      r := Returned(true);
    }

    /** `lockImmediate()`. */
    method LockImmediate(caller: TaskId) returns (ok: bool)
      modifies this
      ensures (State(), ok) == L.TryLock(old(State()), caller)
    {
      if owner == caller {
        return true;
      }
      if free {
        free, owner := false, caller;
        ok := true;
      } else {
        ok := false;
      }
    }

    /** `unlock()`: frees the mutex for any caller, outside any critical
        section. */
    method Unlock()
      modifies this
      ensures State() == L.Released(old(State())) && Valid()
    {
      owner := NoTask;
      free := true;
    }

    /** `available()`. */
    function Available(): (r: bool)
      reads this
      requires Valid()
      ensures r <==> owner == NoTask
    {
      free
    }
  }

  /** `LockGuard` of include/datatypes/Mutex.h. */
  class LockGuard {
    const m: Mutex
    const caller: TaskId
    var locked: bool
    var rest: Env

    constructor (m: Mutex, caller: TaskId, env: Env)
      modifies m
      ensures this.m == m && this.caller == caller
      ensures L.LockAll(old(m.State()), caller, env) == Waited(m.State(), locked, rest)
    {
      this.m := m;
      this.caller := caller;
      var returned, _, left := m.Lock(caller, env);
      locked, rest := returned, left;
    }

    /** `~LockGuard()`: frees the mutex. */
    method Destroy()
      modifies m
      ensures m.State() == LockState(true, NoTask)
    {
      m.Unlock();
    }
  }
}
