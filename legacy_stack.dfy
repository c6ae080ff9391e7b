/** The older `Stack<T, i>` of include/datatypes/Stack.h, locked by the
    re-entrant `Mutex` through a `LockGuard` that is held for the whole of
    each operation, including the waiting loops of the timed ones. The
    element operations are those of the newer revision. */
module LegacyStack {
  import opened Machine
  import opened Polling
  import L = LegacySignaling
  import MutexLock
  import SS = SyncStack

  /** Whether a clock reading `r` ends a waiting loop with deadline `d`:
      the loop goes on while `d < r` equals `past`. */
  predicate Stops(d: uint64, past: bool, r: uint32)
  {
    (d < r) != past
  }

  /** `while (cond && <reading vs deadline>) OS.yield();` once `cond`
      holds: each pass reads the clock and continues when
      `timeout < millis()` equals `past`. The lock stays taken; other
      tasks' operations on it still take effect. */
  function SpinWhile(s: LockState, d: uint64, past: bool, env: Env): Polled
    decreases |env.clock|
  {
    if env.clock == [] then Polled(s, Pending, env)
    else if Stops(d, past, env.clock[0]) then Polled(s, Returned(true), env.Tick())
    else
      var e := env.Tick();
      if e.runs == [] then Polled(s, Pending, e)
      else SpinWhile(Run(L.Effect, s, e.runs[0]), d, past, e.Step())
  }

  /** `p` is what remains after a loop over `env` that stops at a reading
      on the given side of the deadline `d`: it consumed part of `env`,
      and if it ended, its last reading was the one that stopped it. */
  predicate StoppedBy(env: Env, p: Polled, d: uint64, past: bool)
  {
    var used := |env.clock| - |p.rest.clock|;
    env.Consumed(p.rest) &&
    (p.outcome != Pending ==> 1 <= used && Stops(d, past, env.clock[used - 1]))
  }

  /** The loop ends only at a reading on the stopping side of the
      deadline. */
  lemma {:induction false} SpinWhileFacts(s: LockState, d: uint64, past: bool, env: Env)
    ensures StoppedBy(env, SpinWhile(s, d, past, env), d, past)
    decreases |env.clock|
  {
    if env.clock == [] {
      assert SpinWhile(s, d, past, env).rest == env;
    } else if Stops(d, past, env.clock[0]) || env.runs == [] {
      assert SpinWhile(s, d, past, env).rest == env.Tick();
      ConsumedTick(env);
    } else {
      var e := env.Tick().Step();
      var s1 := Run(L.Effect, s, env.runs[0]);
      SpinWhileFacts(s1, d, past, e);
      var p := SpinWhile(s1, d, past, e);
      assert SpinWhile(s, d, past, env) == p;
      StoppedByTickStep(env, p, d, past);
    }
  }

  /** A pass that read the clock and yielded keeps `StoppedBy` for the
      whole environment. */
  lemma StoppedByTickStep(env: Env, p: Polled, d: uint64, past: bool)
    requires |env.clock| > 0 && |env.runs| > 0 && StoppedBy(env.Tick().Step(), p, d, past)
    ensures StoppedBy(env, p, d, past)
  {
    var e := env.Tick().Step();
    ConsumedTickStep(env, p.rest);
    if p.outcome != Pending {
      var used := |e.clock| - |p.rest.clock|;
      assert env.clock[(|env.clock| - |p.rest.clock|) - 1] == e.clock[used - 1];
    }
  }

  /** The loop, entered only when `spin`. */
  function Spun(s: LockState, d: uint64, past: bool, spin: bool, env: Env): Polled
  {
    if spin then SpinWhile(s, d, past, env) else Polled(s, Returned(true), env)
  }

  /** The rest of timed `push` after the loop: one more reading; no later
      than the deadline it reports false, past it it stores; either way the
      guard's destructor frees the mutex. */
  function AfterSpin<T>(v: SS.StackView<T>, p: Polled, x: T, d: uint64): SS.Outcome<T, bool>
  {
    if p.outcome == Pending || p.rest.clock == [] then SS.Outcome(v, p.state, Pending, p.rest)
    else if d >= p.rest.clock[0] then SS.Outcome(v, L.Released(p.state), Returned(false), p.rest.Tick())
    else SS.Outcome(SS.Store(v, x), L.Released(p.state), Returned(true), p.rest.Tick())
  }

  /** The effect of `push(inp, timeout)`: the guard first, then the
      deadline `timeout + millis()`, the loop while full and not yet past
      it, and the last reading. */
  function PushFor<T>(v: SS.StackView<T>, s: LockState, caller: TaskId, x: T, timeout: uint64, env: Env): SS.Outcome<T, bool>
  {
    var w := L.LockAll(s, caller, env);
    if !w.freed || w.rest.clock == [] then SS.Outcome(v, w.state, Pending, w.rest)
    else
      var d := Add64(timeout, w.rest.clock[0]);
      AfterSpin(v, Spun(w.state, d, true, v.IsFull(), w.rest.Tick()), x, d)
  }

  /** The effect of `pop(timeout)`: the guard, the deadline, the loop while
      empty and not past it, then the body of `pop()` without a second
      lock. */
  function PopFor<T>(v: SS.StackView<T>, s: LockState, caller: TaskId, timeout: uint64, env: Env): SS.Outcome<T, T>
    requires v.Valid()
  {
    var w := L.LockAll(s, caller, env);
    if !w.freed || w.rest.clock == [] then SS.Outcome(v, w.state, Pending, w.rest)
    else
      AfterPopSpin(v, Spun(w.state, Add64(timeout, w.rest.clock[0]), false, v.IsEmpty(), w.rest.Tick()))
  }

  /** The rest of timed `pop` after the loop: the body of `pop()`, then the
      guard's destructor frees the mutex. */
  function AfterPopSpin<T>(v: SS.StackView<T>, p: Polled): SS.Outcome<T, T>
    requires v.Valid()
  {
    if p.outcome == Pending then SS.Outcome(v, p.state, Pending, p.rest)
    else SS.Outcome(SS.Popped(v).1, L.Released(p.state), Returned(SS.Popped(v).0), p.rest)
  }

  lemma AfterSpinFacts<T>(v: SS.StackView<T>, p: Polled, x: T, d: uint64, env: Env)
    requires env.Consumed(p.rest) && |p.rest.clock| < |env.clock|
    ensures SS.PushedBy(v, x, d, env, AfterSpin(v, p, x, d))
  {
    var o := AfterSpin(v, p, x, d);
    if p.outcome != Pending && p.rest.clock != [] {
      ConsumedTick(p.rest);
      ConsumedTrans(env, p.rest, p.rest.Tick());
      assert o.rest == p.rest.Tick();
      var used := |env.clock| - |o.rest.clock|;
      assert used - 1 == |env.clock| - |p.rest.clock|;
      assert env.clock[used - 1] == p.rest.clock[0];
    } else {
      assert o.rest == p.rest && o.result == Pending;
    }
  }

  /** Timed `push` is inverted here as well: once the guard holds the
      mutex and the deadline is read, it reports false whenever its last
      reading is not past the deadline and stores only once the deadline
      has passed, and the mutex ends free. */
  lemma PushForFacts<T>(v: SS.StackView<T>, s: LockState, caller: TaskId, x: T, timeout: uint64, env: Env)
    ensures var w := L.LockAll(s, caller, env);
      var o := PushFor(v, s, caller, x, timeout, env);
      (w.freed && w.rest.clock != [] ==> SS.PushedBy(v, x, Add64(timeout, w.rest.clock[0]), w.rest, o)) &&
      (!(w.freed && w.rest.clock != []) ==> o.result == Pending && o.view == v)
  {
    var w := L.LockAll(s, caller, env);
    if w.freed && w.rest.clock != [] {
      var d := Add64(timeout, w.rest.clock[0]);
      var e := w.rest.Tick();
      ConsumedTick(w.rest);
      var p := Spun(w.state, d, true, v.IsFull(), e);
      if v.IsFull() {
        SpinWhileFacts(w.state, d, true, e);
      }
      ConsumedTrans(w.rest, e, p.rest);
      AfterSpinFacts(v, p, x, d, w.rest);
    }
  }

  /** What timed `pop` promises about an outcome `o` for the deadline `d`
      read from `env`: it returns what `pop()` would return, with the mutex
      free; on an empty stack it does so only once a reading is past the
      deadline, returning `_data[0]`; while pending the stack is as it
      was. */
  ghost predicate PoppedBy<T>(v: SS.StackView<T>, d: uint64, env: Env, o: SS.Outcome<T, T>)
    requires v.Valid()
  {
    var used := |env.clock| - |o.rest.clock|;
    env.Consumed(o.rest) &&
    (o.result != Pending ==>
       o.result == Returned(SS.Popped(v).0) && o.view == SS.Popped(v).1 &&
       o.lock == LockState(true, NoTask) && 1 <= used) &&
    (o.result != Pending && v.IsEmpty() ==>
       2 <= used && d < env.clock[used - 1] && o.result == Returned(v.buf[0])) &&
    (o.result == Pending ==> o.view == v)
  }

  lemma AfterPopSpinFacts<T>(v: SS.StackView<T>, p: Polled, d: uint64, env: Env)
    requires v.Valid() && env.clock != [] && env.Tick().Consumed(p.rest)
    requires v.IsEmpty() ==> StoppedBy(env.Tick(), p, d, false)
    ensures PoppedBy(v, d, env, AfterPopSpin(v, p))
  {
    var e := env.Tick();
    ConsumedTick(env);
    ConsumedTrans(env, e, p.rest);
    var o := AfterPopSpin(v, p);
    assert o.rest == p.rest;
    if p.outcome != Pending && v.IsEmpty() {
      var used := |e.clock| - |p.rest.clock|;
      assert env.clock[used] == e.clock[used - 1];
    }
  }

  /** Timed `pop` keeps the promise of `PoppedBy` once the guard holds the
      mutex and the deadline is read; before that it is pending. */
  lemma PopForFacts<T>(v: SS.StackView<T>, s: LockState, caller: TaskId, timeout: uint64, env: Env)
    requires v.Valid()
    ensures var w := L.LockAll(s, caller, env);
      var o := PopFor(v, s, caller, timeout, env);
      (!(w.freed && w.rest.clock != []) ==> o.result == Pending && o.view == v) &&
      (w.freed && w.rest.clock != [] ==> PoppedBy(v, Add64(timeout, w.rest.clock[0]), w.rest, o))
  {
    var w := L.LockAll(s, caller, env);
    if w.freed && w.rest.clock != [] {
      var d := Add64(timeout, w.rest.clock[0]);
      var e := w.rest.Tick();
      var p := Spun(w.state, d, false, v.IsEmpty(), e);
      if v.IsEmpty() {
        SpinWhileFacts(w.state, d, false, e);
      }
      AfterPopSpinFacts(v, p, d, w.rest);
    }
  }

  /** For every mutex and every run of other tasks: a run whose last
      operation is an `unlock`, by anyone, leaves the mutex free and
      unowned, so a task waiting inside its guard no longer holds it. */
  lemma {:induction false} RunEndingInReleaseFrees(s: LockState, ops: seq<LockOp>, b: TaskId)
    ensures Run(L.Effect, s, ops + [Release(b)]) == LockState(true, NoTask)
    decreases |ops|
  {
    if ops == [] {
      assert ([] + [Release(b)])[1..] == [];
    } else {
      assert (ops + [Release(b)])[0] == ops[0];
      assert (ops + [Release(b)])[1..] == ops[1..] + [Release(b)];
      RunEndingInReleaseFrees(L.Effect(s, ops[0]), ops[1..], b);
    }
  }

  /** The release inside the loop is unconditional: another task's
      `unlock` during a yield frees the mutex the waiting task holds, and
      the loop ends with the task carrying on as if it held it; timed
      `push` then still writes, here past the end of a full stack. */
  lemma PushForLosesMutex<T>(a: TaskId, b: TaskId, x: T)
    requires a != b && a != NoTask && b != NoTask
    ensures SpinWhile(LockState(false, a), 0, true, Env([1, 0], [[Release(b)]])) ==
            Polled(LockState(true, NoTask), Returned(true), Env([], []))
    ensures var o := PushFor(SS.StackView([x], 1, false), LockState(false, a), a, x, 0, Env([0, 1, 0, 1], [[Release(b)]]));
      o.result == Returned(true) && o.view.overrun && o.view.num == 2
  {
    var e := Env([1, 0], [[Release(b)]]).Tick();
    assert e.runs[0] == [Release(b)];
    assert Run(L.Effect, LockState(false, a), e.runs[0]) == LockState(true, NoTask);
    var env := Env([0, 1, 0, 1], [[Release(b)]]);
    var v := SS.StackView([x], 1, false);
    assert L.LockAll(LockState(false, a), a, env) == Waited(LockState(false, a), true, env);
    var e1 := env.Tick();
    assert e1.Tick().runs[0] == [Release(b)];
    var p := SpinWhile(LockState(false, a), 0, true, e1);
    assert p == SpinWhile(LockState(true, NoTask), 0, true, e1.Tick().Step());
    assert p == Polled(LockState(true, NoTask), Returned(true), Env([1], []));
    assert PushFor(v, LockState(false, a), a, x, 0, env) == AfterSpin(v, p, x, 0);
  }

  /** `Stack<T, i>` of include/datatypes/Stack.h. */
  class Stack<T> {
    /** The template capacity `i`. */
    const cap: nat
    const data: array<T>
    /** `_num`. */
    var num: nat
    /** Set once a write went to an index at or past `i`. */
    var overrun: bool
    /** `_m`. */
    const m: MutexLock.Mutex

    function View(): SS.StackView<T>
      reads this, data
    {
      SS.StackView(data[..], num, overrun)
    }

    predicate Valid()
      reads this, data
    {
      data.Length == cap && View().Valid()
    }

    /** `Stack()`: `_num(0)` and a free mutex. */
    constructor (cap: nat, init: T)
      requires cap >= 1
      ensures Valid() && fresh(data) && fresh(m)
      ensures View() == SS.StackView(seq(cap, _ => init), 0, false)
      ensures m.State() == LockState(true, NoTask)
    {
      this.cap := cap;
      data := new T[cap](_ => init);
      num, overrun := 0, false;
      m := new MutexLock.Mutex();
    }

    /** `size()`. */
    function Size(): (r: nat)
      reads this, data
      requires Valid()
      ensures r <= cap && r == |View().Elements()|
    {
      num
    }

    /** `isEmpty()`. */
    function IsEmpty(): (r: bool)
      reads this, data
      requires Valid()
      ensures r <==> View().Elements() == []
    {
      num == 0
    }

    /** `isFull()`. */
    function IsFull(): (r: bool)
      reads this, data
      requires Valid()
      ensures r <==> |View().Elements()| == cap
    {
      num == cap
    }

    /** `clear()`. */
    method Clear()
      requires Valid()
      modifies this
      ensures Valid() && View() == SS.Cleared(old(View()))
    {
      num := 0;
    }

    /** `_data[_num] = inp; _num += 1;` */
    method StoreTop(x: T)
      requires data.Length == cap
      modifies this, data
      ensures View() == SS.Store(old(View()), x)
    {
      if num < cap {
        data[num] := x;
      } else {
        overrun := true;
      }
      num := num + 1;
    }

    /** `push(inp)`: the body of the newer revision under the guard, which
        leaves the mutex free. */
    method Push(x: T, caller: TaskId, env: Env) returns (r: Call<bool>, rest: Env)
      requires Valid()
      modifies this, data, m
      ensures Valid()
      ensures var w := L.LockAll(old(m.State()), caller, env);
        rest == w.rest &&
        (w.freed ==> r == Returned(SS.Pushed(old(View()), x).1) && View() == SS.Pushed(old(View()), x).0 &&
                     m.State() == LockState(true, NoTask)) &&
        (!w.freed ==> r == Pending && View() == old(View()) && m.State() == w.state)
    {
      var g := new MutexLock.LockGuard(m, caller, env);
      rest := g.rest;
      if !g.locked {
        return Pending, rest;
      }
      if num == cap {
        g.Destroy();
        return Returned(false), rest;
      }
      StoreTop(x);
      g.Destroy();
      r := Returned(true);
    }

    /** `pop()`. */
    method Pop(caller: TaskId, env: Env) returns (r: Call<T>, rest: Env)
      requires Valid()
      modifies this, m
      ensures Valid()
      ensures var w := L.LockAll(old(m.State()), caller, env);
        rest == w.rest &&
        (w.freed ==> r == Returned(SS.Popped(old(View())).0) && View() == SS.Popped(old(View())).1 &&
                     m.State() == LockState(true, NoTask)) &&
        (!w.freed ==> r == Pending && View() == old(View()) && m.State() == w.state)
    {
      var g := new MutexLock.LockGuard(m, caller, env);
      rest := g.rest;
      if !g.locked {
        return Pending, rest;
      }
      if num == 0 {
        r := Returned(data[num]);
      } else {
        num := num - 1;
        r := Returned(data[num]);
      }
      g.Destroy();
    }

    /** `top()`: a `PastEnd` read when full. */
    method Top(caller: TaskId, env: Env) returns (r: Call<SS.Read<T>>, rest: Env)
      requires Valid()
      modifies m
      ensures var w := L.LockAll(old(m.State()), caller, env);
        rest == w.rest &&
        (w.freed ==> r == Returned(SS.Peeked(View())) && m.State() == LockState(true, NoTask)) &&
        (!w.freed ==> r == Pending && m.State() == w.state)
    {
      var g := new MutexLock.LockGuard(m, caller, env);
      rest := g.rest;
      if !g.locked {
        return Pending, rest;
      }
      r := Returned(if num < cap then SS.Slot(data[num]) else SS.PastEnd);
      g.Destroy();
    }

    /** The yield loop of the timed operations, with the mutex held. */
    method SpinLoop(d: uint64, past: bool, env: Env) returns (held: Call<bool>, rest: Env)
      modifies m
      ensures SpinWhile(old(m.State()), d, past, env) == Polled(m.State(), held, rest)
    {
      rest := env;
      while true
        invariant SpinWhile(old(m.State()), d, past, env) == SpinWhile(m.State(), d, past, rest)
        decreases |rest.clock|
      {
        if rest.clock == [] {
          return Pending, rest;
        }
        var now := rest.clock[0];
        rest := rest.Tick();
        if Stops(d, past, now) {
          return Returned(true), rest;
        }
        if rest.runs == [] {
          return Pending, rest;
        }
        m.Interleave(rest.runs[0]);
        rest := rest.Step();
      }
    }

    /** `push(inp, timeout)`. On a full stack this can store past the end,
        so the result need not satisfy `Valid()`. */
    method PushTimeout(x: T, timeout: uint64, caller: TaskId, env: Env) returns (r: Call<bool>, rest: Env)
      requires Valid()
      modifies this, data, m
      ensures old(num) < cap ==> Valid()
      ensures PushFor(old(View()), old(m.State()), caller, x, timeout, env) == SS.Outcome(View(), m.State(), r, rest)
    {
      var g := new MutexLock.LockGuard(m, caller, env);
      rest := g.rest;
      if !g.locked || rest.clock == [] {
        return Pending, rest;
      }
      var d := Add64(timeout, rest.clock[0]);
      rest := rest.Tick();
      if num == cap {
        var held;
        held, rest := SpinLoop(d, true, rest);
        if held == Pending {
          return Pending, rest;
        }
      }
      if rest.clock == [] {
        return Pending, rest;
      }
      var now := rest.clock[0];
      rest := rest.Tick();
      if d >= now {
        g.Destroy();
        return Returned(false), rest;
      }
      StoreTop(x);
      g.Destroy();
      r := Returned(true);
    }

    /** `pop(timeout)`. */
    method PopTimeout(timeout: uint64, caller: TaskId, env: Env) returns (r: Call<T>, rest: Env)
      requires Valid()
      modifies this, m
      ensures Valid()
      ensures PopFor(old(View()), old(m.State()), caller, timeout, env) == SS.Outcome(View(), m.State(), r, rest)
    {
      var g := new MutexLock.LockGuard(m, caller, env);
      rest := g.rest;
      if !g.locked || rest.clock == [] {
        return Pending, rest;
      }
      var d := Add64(timeout, rest.clock[0]);
      rest := rest.Tick();
      if num == 0 {
        var held;
        held, rest := SpinLoop(d, false, rest);
        if held == Pending {
          return Pending, rest;
        }
      }
      if num == 0 {
        r := Returned(data[num]);
      } else {
        num := num - 1;
        r := Returned(data[num]);
      }
      g.Destroy();
    }
  }
}
