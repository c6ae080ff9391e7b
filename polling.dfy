/** The polling loops that every lock revision runs while it waits,
    parameterised by the revision's own transition for the operations of
    other tasks (`effect`). */
module Polling {
  import opened Machine

  /** `_lock` is true exactly when `_locking_task` is the "nobody" value. */
  predicate Inv(s: LockState) { s.free <==> s.owner == NoTask }

  /** A transition function keeps the invariant for real task identities. */
  ghost predicate KeepsInv(effect: (LockState, LockOp) -> LockState)
  {
    forall s: LockState, op: LockOp :: Inv(s) && op.Task() != NoTask ==> Inv(effect(s, op))
  }

  /** The lock after other tasks performed `ops` one after the other. */
  function Run(effect: (LockState, LockOp) -> LockState, s: LockState, ops: seq<LockOp>): LockState
    decreases |ops|
  {
    if ops == [] then s else Run(effect, effect(s, ops[0]), ops[1..])
  }

  datatype Waited = Waited(state: LockState, freed: bool, rest: Env)

  /** `while (!_lock) OS.yield();` -- yield until the lock is seen free.
      `freed` is false when the environment ran out first. */
  function Wait(effect: (LockState, LockOp) -> LockState, s: LockState, env: Env): (w: Waited)
    ensures w.rest.clock == env.clock
    decreases |env.runs|
  {
    if s.free then Waited(s, true, env)
    else if env.runs == [] then Waited(s, false, env)
    else Wait(effect, Run(effect, s, env.runs[0]), env.Step())
  }

  datatype Polled = Polled(state: LockState, outcome: Call<bool>, rest: Env)

  /** `while (!_lock) { if (timeout < millis()) return false; OS.yield(); }`
      -- each pass reads the clock before it yields. */
  function PollWait(effect: (LockState, LockOp) -> LockState, s: LockState, deadline: uint64, env: Env): Polled
    decreases |env.clock|
  {
    if s.free then Polled(s, Returned(true), env)
    else if env.clock == [] then Polled(s, Pending, env)
    else if deadline < env.clock[0] then Polled(s, Returned(false), env.Tick())
    else if env.runs == [] then Polled(s, Pending, env.Tick())
    else PollWait(effect, Run(effect, s, env.runs[0]), deadline, env.Tick().Step())
  }

  /** `while (!_lock) { OS.yield(); if (timeout < millis()) return false; }`
      -- each pass yields before it reads the clock. */
  function YieldPoll(effect: (LockState, LockOp) -> LockState, s: LockState, deadline: uint64, env: Env): Polled
    decreases |env.runs|
  {
    if s.free then Polled(s, Returned(true), env)
    else if env.runs == [] then Polled(s, Pending, env)
    else
      var s' := Run(effect, s, env.runs[0]);
      var e := env.Step();
      if e.clock == [] then Polled(s', Pending, e)
      else if deadline < e.clock[0] then Polled(s', Returned(false), e.Tick())
      else YieldPoll(effect, s', deadline, e.Tick())
  }

  lemma {:induction false} RunKeepsInv(effect: (LockState, LockOp) -> LockState, s: LockState, ops: seq<LockOp>)
    requires KeepsInv(effect) && Inv(s)
    requires forall j :: 0 <= j < |ops| ==> ops[j].Task() != NoTask
    ensures Inv(Run(effect, s, ops))
    decreases |ops|
  {
    if ops != [] {
      RunKeepsInv(effect, effect(s, ops[0]), ops[1..]);
    }
  }

  /** The wait ends only on a free lock, keeps the invariant and consumes a
      prefix of the environment; it is still waiting only once every run of
      the environment is used up. */
  lemma {:induction false} WaitFacts(effect: (LockState, LockOp) -> LockState, s: LockState, env: Env)
    requires KeepsInv(effect) && Inv(s) && RealTasks(env)
    ensures var w := Wait(effect, s, env);
      Inv(w.state) && (w.freed <==> w.state.free) && env.Consumed(w.rest) &&
      (!w.freed ==> w.rest.runs == [])
    decreases |env.runs|
  {
    if !s.free && env.runs != [] {
      RunKeepsInv(effect, s, env.runs[0]);
      assert RealTasks(env.Step());
      WaitFacts(effect, Run(effect, s, env.runs[0]), env.Step());
      ConsumedTrans(env, env.Step(), Wait(effect, s, env).rest);
    }
  }

  /** The clock side of the loop: it consumes part of the environment,
      and a false result comes right after a reading strictly beyond the
      deadline. */
  lemma {:induction false} PollWaitClock(effect: (LockState, LockOp) -> LockState, s: LockState, deadline: uint64, env: Env)
    ensures var p := PollWait(effect, s, deadline, env);
      var used := |env.clock| - |p.rest.clock|;
      env.Consumed(p.rest) &&
      (p.outcome == Returned(false) ==> 1 <= used && deadline < env.clock[used - 1])
    decreases |env.clock|
  {
    if !s.free && env.clock != [] && !(deadline < env.clock[0]) && env.runs != [] {
      var e := env.Tick().Step();
      var s1 := Run(effect, s, env.runs[0]);
      PollWaitClock(effect, s1, deadline, e);
      var p := PollWait(effect, s1, deadline, e);
      var used := |e.clock| - |p.rest.clock|;
      if p.outcome == Returned(false) {
        assert env.clock[used] == e.clock[used - 1];
      }
    }
  }

  /** The lock side of the loop: it keeps the invariant, reports true
      exactly on a lock seen free and false only with the lock taken. */
  lemma {:induction false} PollWaitState(effect: (LockState, LockOp) -> LockState, s: LockState, deadline: uint64, env: Env)
    requires KeepsInv(effect) && Inv(s) && RealTasks(env)
    ensures var p := PollWait(effect, s, deadline, env);
      Inv(p.state) &&
      (p.outcome == Returned(true) <==> p.state.free) &&
      (p.outcome == Returned(false) ==> !p.state.free)
    decreases |env.clock|
  {
    if !s.free && env.clock != [] && !(deadline < env.clock[0]) && env.runs != [] {
      RunKeepsInv(effect, s, env.runs[0]);
      var e := env.Tick().Step();
      assert RealTasks(e);
      PollWaitState(effect, Run(effect, s, env.runs[0]), deadline, e);
    }
  }

  /** A true result only on a lock seen free; a false result only right
      after a clock reading strictly beyond the deadline, with the lock
      still taken. */
  lemma PollWaitFacts(effect: (LockState, LockOp) -> LockState, s: LockState, deadline: uint64, env: Env)
    requires KeepsInv(effect) && Inv(s) && RealTasks(env)
    ensures var p := PollWait(effect, s, deadline, env);
      var used := |env.clock| - |p.rest.clock|;
      Inv(p.state) && env.Consumed(p.rest) &&
      (p.outcome == Returned(true) <==> p.state.free) &&
      (p.outcome == Returned(false) ==> 1 <= used && deadline < env.clock[used - 1] && !p.state.free)
  {
    PollWaitClock(effect, s, deadline, env);
    PollWaitState(effect, s, deadline, env);
  }

  /** `p` is what remains after a yield-first loop over `env` with the
      given deadline: it consumed part of `env`, and a false result came
      after at least one yield and right after a reading strictly beyond
      the deadline. */
  predicate TimedOutAfterYield(env: Env, p: Polled, deadline: uint64)
  {
    var used := |env.clock| - |p.rest.clock|;
    env.Consumed(p.rest) &&
    (p.outcome == Returned(false) ==>
       1 <= used && deadline < env.clock[used - 1] && |p.rest.runs| < |env.runs|)
  }

  /** The clock side of the loop that yields before it reads the clock: a
      false result comes after at least one yield and right after a reading
      strictly beyond the deadline. */
  lemma {:induction false} YieldPollClock(effect: (LockState, LockOp) -> LockState, s: LockState, deadline: uint64, env: Env)
    ensures TimedOutAfterYield(env, YieldPoll(effect, s, deadline, env), deadline)
    decreases |env.runs|
  {
    if s.free || env.runs == [] {
      assert YieldPoll(effect, s, deadline, env).rest == env;
    } else {
      var e := env.Step();
      var s1 := Run(effect, s, env.runs[0]);
      ConsumedStep(env);
      if e.clock == [] {
        assert YieldPoll(effect, s, deadline, env).rest == e;
      } else if deadline < e.clock[0] {
        assert YieldPoll(effect, s, deadline, env) == Polled(s1, Returned(false), e.Tick());
        ConsumedStepTick(env, e.Tick());
      } else {
        YieldPollClock(effect, s1, deadline, e.Tick());
        var p := YieldPoll(effect, s1, deadline, e.Tick());
        assert YieldPoll(effect, s, deadline, env) == p;
        TimedOutStepTick(env, p, deadline);
      }
    }
  }

  /** One yield and one reading in front of the loop keep
      `TimedOutAfterYield` true of the whole environment. */
  lemma TimedOutStepTick(env: Env, p: Polled, deadline: uint64)
    requires |env.runs| > 0 && |env.clock| > 0 && TimedOutAfterYield(env.Step().Tick(), p, deadline)
    ensures TimedOutAfterYield(env, p, deadline)
  {
    var e := env.Step().Tick();
    ConsumedStepTick(env, p.rest);
    if p.outcome == Returned(false) {
      var used := |e.clock| - |p.rest.clock|;
      assert env.clock[(|env.clock| - |p.rest.clock|) - 1] == e.clock[used - 1];
    }
  }

  /** The lock side of that loop: it keeps the invariant and reports true
      only on a lock seen free. */
  lemma {:induction false} YieldPollState(effect: (LockState, LockOp) -> LockState, s: LockState, deadline: uint64, env: Env)
    requires KeepsInv(effect) && Inv(s) && RealTasks(env)
    ensures var p := YieldPoll(effect, s, deadline, env);
      Inv(p.state) && (p.outcome == Returned(true) ==> p.state.free)
    decreases |env.runs|
  {
    if !s.free && env.runs != [] {
      RunKeepsInv(effect, s, env.runs[0]);
      var e := env.Step();
      assert RealTasks(e);
      if e.clock != [] && !(deadline < e.clock[0]) {
        assert RealTasks(e.Tick());
        YieldPollState(effect, Run(effect, s, env.runs[0]), deadline, e.Tick());
      }
    }
  }

  /** The loop that yields before it reads the clock: a true result only on
      a lock seen free; a false result only after at least one yield and
      right after a clock reading strictly beyond the deadline -- even when
      that last yield left the lock free. */
  lemma YieldPollFacts(effect: (LockState, LockOp) -> LockState, s: LockState, deadline: uint64, env: Env)
    requires KeepsInv(effect) && Inv(s) && RealTasks(env)
    ensures var p := YieldPoll(effect, s, deadline, env);
      var used := |env.clock| - |p.rest.clock|;
      Inv(p.state) && env.Consumed(p.rest) &&
      (p.outcome == Returned(true) ==> p.state.free) &&
      (p.outcome == Returned(false) ==>
         1 <= used && deadline < env.clock[used - 1] && |p.rest.runs| < |env.runs|)
  {
    YieldPollClock(effect, s, deadline, env);
    YieldPollState(effect, s, deadline, env);
  }
}
