/** The ownerless token `Semaphore` of src/semaphore.cpp: one flag, taken
    by `get` and set free by `release`. */
module TokenSemaphore {
  import opened Machine

  /** What an operation of another task does to the token: a `get` leaves
      it taken (it either takes a free token or still waits on a taken
      one), a `release` sets it free. */
  function Effect(token: bool, op: LockOp): bool
  {
    match op
    case Acquire(_) => false
    case Release(_) => true
  }

  /** The token after other tasks performed `ops` one after the other. */
  function Run(token: bool, ops: seq<LockOp>): bool
    decreases |ops|
  {
    if ops == [] then token else Run(Effect(token, ops[0]), ops[1..])
  }

  datatype Got = Got(token: bool, outcome: Call<bool>, rest: Env)

  /** `while (_token == false) { if (millis() > time) return false; OS.yield(); }` */
  function Poll(token: bool, time: uint32, env: Env): Got
    decreases |env.clock|
  {
    if token then Got(token, Returned(true), env)
    else if env.clock == [] then Got(token, Pending, env)
    else if env.clock[0] > time then Got(token, Returned(false), env.Tick())
    else if env.runs == [] then Got(token, Pending, env.Tick())
    else Poll(Run(token, env.runs[0]), time, env.Tick().Step())
  }

  /** The effect of `get(timeout)`: `time` is the 32-bit sum of the first
      reading and the 16-bit timeout; after the wait a free token is taken.
      The success path has no `return` in the source; it is modelled as
      reporting true. */
  function GetFor(token: bool, timeout: uint16, env: Env): Got
  {
    if env.clock == [] then Got(token, Pending, env)
    else
      var g := Poll(token, Add32(env.clock[0], timeout), env.Tick());
      if g.outcome == Returned(true) then g.(token := false) else g
  }

  /** The clock side of the wait: it consumes part of the environment, and
      a false result comes right after a reading strictly beyond `time`. */
  lemma {:induction false} PollClock(token: bool, time: uint32, env: Env)
    ensures var g := Poll(token, time, env);
      var used := |env.clock| - |g.rest.clock|;
      env.Consumed(g.rest) &&
      (g.outcome == Returned(false) ==> 1 <= used && env.clock[used - 1] > time)
    decreases |env.clock|
  {
    if !token && env.clock != [] && !(env.clock[0] > time) && env.runs != [] {
      var e := env.Tick().Step();
      PollClock(Run(token, env.runs[0]), time, e);
      var g := Poll(Run(token, env.runs[0]), time, e);
      assert Poll(token, time, env) == g;
      ConsumedTick(env);
      ConsumedStep(env.Tick());
      ConsumedTrans(env, env.Tick(), e);
      ConsumedTrans(env, e, g.rest);
      var used := |e.clock| - |g.rest.clock|;
      if g.outcome == Returned(false) {
        assert |env.clock| - |g.rest.clock| == used + 1;
        assert env.clock[used] == e.clock[used - 1];
      }
    }
  }

  /** The token side of the wait: true exactly on a free token. */
  lemma {:induction false} PollToken(token: bool, time: uint32, env: Env)
    ensures var g := Poll(token, time, env);
      g.outcome == Returned(true) <==> g.token
    decreases |env.clock|
  {
    if !token && env.clock != [] && !(env.clock[0] > time) && env.runs != [] {
      PollToken(Run(token, env.runs[0]), time, env.Tick().Step());
    }
  }

  /** The wait ends with true only on a free token, with false only right
      after a reading strictly beyond `time` while the token is taken. */
  lemma PollFacts(token: bool, time: uint32, env: Env)
    ensures var g := Poll(token, time, env);
      var used := |env.clock| - |g.rest.clock|;
      env.Consumed(g.rest) &&
      (g.outcome == Returned(true) <==> g.token) &&
      (g.outcome == Returned(false) ==> 1 <= used && env.clock[used - 1] > time && !g.token)
  {
    PollClock(token, time, env);
    PollToken(token, time, env);
  }

  /** `get` reports true only having taken the token, and false only after
      a reading strictly beyond `millis() + timeout`, the token still taken
      by someone else. */
  lemma GetFacts(token: bool, timeout: uint16, env: Env)
    ensures var g := GetFor(token, timeout, env);
      var used := |env.clock| - |g.rest.clock|;
      env.Consumed(g.rest) &&
      (g.outcome == Returned(true) ==> !g.token) &&
      (g.outcome == Returned(false) ==>
         2 <= used && env.clock[used - 1] > Add32(env.clock[0], timeout) && !g.token)
  {
    if env.clock != [] {
      var t := Add32(env.clock[0], timeout);
      var e := env.Tick();
      PollFacts(token, t, e);
      var g := Poll(token, t, e);
      var used := |e.clock| - |g.rest.clock|;
      if g.outcome == Returned(false) {
        assert env.clock[used] == e.clock[used - 1];
      }
      ConsumedTrans(env, e, g.rest);
    }
  }

  /** The deadline is not wrap-tolerant: when `time` is `0xFFFFFFFF` no
      reading can exceed it and `get` never times out. */
  lemma {:induction false} NoTimeoutAtTop(token: bool, env: Env)
    ensures Poll(token, 0xFFFF_FFFF, env).outcome != Returned(false)
    decreases |env.clock|
  {
    if !token && env.clock != [] && env.runs != [] {
      NoTimeoutAtTop(Run(token, env.runs[0]), env.Tick().Step());
    }
  }

  /** ... and when `millis() + timeout` wraps past 2^32, a taken token
      makes `get` give up at the reading after the first, with no wait. */
  lemma WrappedDeadlineGivesUp(timeout: uint16)
    requires 0 < timeout
    ensures GetFor(false, timeout, Env([0xFFFF_FFFF, 0xFFFF_FFFF], [])).outcome == Returned(false)
  {
  }

  /** `Semaphore` of src/semaphore.cpp. */
  class Token {
    /** `_token`: true when the token can be taken. */
    var token: bool

    /** The token starts free. */
    constructor ()
      ensures token
    {
      token := true;
    }

    /** One `OS.yield()`: the other tasks run and operate on the token. */
    method Interleave(ops: seq<LockOp>)
      modifies this
      ensures token == Run(old(token), ops)
    {
      token := Run(token, ops);
    }

    /** `get(timeout)`. */
    method Get(timeout: uint16, env: Env) returns (r: Call<bool>, rest: Env)
      modifies this
      ensures GetFor(old(token), timeout, env) == Got(token, r, rest)
    {
      if env.clock == [] {
        r, rest := Pending, env;
        return;
      }
      var time := Add32(env.clock[0], timeout);
      rest := env.Tick();
      ghost var start := rest;
      while !token
        invariant Poll(old(token), time, start) == Poll(token, time, rest)
        decreases |rest.clock|
      {
        if rest.clock == [] {
          r := Pending;
          return;
        }
        if rest.clock[0] > time {
          r, rest := Returned(false), rest.Tick();
          return;
        }
        rest := rest.Tick();
        if rest.runs == [] {
          r := Pending;
          return;
        }
        Interleave(rest.runs[0]);
        rest := rest.Step();
      }
      token := false;
      r := Returned(true);
    }

    /** `release(timeout)`: the token becomes free; the argument is unused
        and the source returns no value. */
    method Release(timeout: uint16)
      modifies this
      ensures token
    {
      token := true;
    }
  }
}
