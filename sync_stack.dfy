/** The thread-safe array `Stack<T, i, L>` of src/datatypes/Stack.h with
    its default lock `L = Semaphore` of src/datatypes/Signaling.h. The
    element operations are shared with the older revision of
    include/datatypes/Stack.h, whose code for them is the same. */
module SyncStack {
  import opened Machine
  import opened Polling
  import S = Signaling

  /** `_data` and `_num`, and whether a write ever went to an index at or
      past `i`. */
  datatype StackView<T> = StackView(buf: seq<T>, num: nat, overrun: bool)
  {
    predicate IsEmpty() { num == 0 }
    predicate IsFull() { num == |buf| }

    /** `0 <= _num <= i`, for a capacity of at least one. */
    predicate Valid() { 1 <= |buf| && num <= |buf| }

    /** The stored elements, oldest first. */
    function Elements(): seq<T>
      requires Valid()
    {
      buf[..num]
    }
  }

  /** A read of `_data[_num]`, which can lie one past the end. */
  datatype Read<T> = Slot(value: T) | PastEnd

  /** `_data[_num++] = inp;` -- past the end it only sets the flag. */
  function Store<T>(v: StackView<T>, x: T): StackView<T>
  {
    if v.num < |v.buf| then v.(buf := v.buf[v.num := x], num := v.num + 1)
    else v.(num := v.num + 1, overrun := true)
  }

  /** The body of `push(inp)`: false on a full stack, else store. */
  function Pushed<T>(v: StackView<T>, x: T): (StackView<T>, bool)
  {
    if v.IsFull() then (v, false) else (Store(v, x), true)
  }

  /** The body of `pop()`: `_data[_num]` on an empty stack, else
      `_data[--_num]`. */
  function Popped<T>(v: StackView<T>): (T, StackView<T>)
    requires v.Valid()
  {
    if v.IsEmpty() then (v.buf[v.num], v) else (v.buf[v.num - 1], v.(num := v.num - 1))
  }

  /** The body of `top()`: `_data[_num]`. */
  function Peeked<T>(v: StackView<T>): Read<T>
  {
    if v.num < |v.buf| then Slot(v.buf[v.num]) else PastEnd
  }

  /** `clear()`: `_num = 0`, the buffer untouched. */
  function Cleared<T>(v: StackView<T>): StackView<T>
  {
    v.(num := 0)
  }

  /** `push` on a full stack changes nothing and reports false; otherwise
      the element goes on top and the rest stays. */
  lemma PushedFacts<T>(v: StackView<T>, x: T)
    requires v.Valid()
    ensures v.IsFull() ==> Pushed(v, x) == (v, false)
    ensures !v.IsFull() ==>
      Pushed(v, x).1 && Pushed(v, x).0.Valid() &&
      Pushed(v, x).0.Elements() == v.Elements() + [x] && Pushed(v, x).0.overrun == v.overrun
  {
    if !v.IsFull() {
      assert Store(v, x).buf[..v.num + 1] == v.buf[..v.num] + [x];
    }
  }

  /** `pop` takes the newest element; on an empty stack it returns
      `_data[0]` and changes nothing. */
  lemma PoppedFacts<T>(v: StackView<T>)
    requires v.Valid()
    ensures Popped(v).1.Valid() && |Popped(v).1.buf| == |v.buf|
    ensures v.IsEmpty() ==> Popped(v) == (v.buf[0], v)
    ensures !v.IsEmpty() ==>
      Popped(v).0 == v.Elements()[v.num - 1] &&
      Popped(v).1.Elements() == v.Elements()[..v.num - 1]
  {
  }

  /** LIFO: `pop` right after a successful `push(x)` returns `x` and gives
      back the elements and `_num` from before. */
  lemma PushThenPop<T>(v: StackView<T>, x: T)
    requires v.Valid() && !v.IsFull()
    ensures var w := Pushed(v, x).0;
      w.Valid() && Popped(w).0 == x && Popped(w).1.num == v.num &&
      Popped(w).1.Elements() == v.Elements()
  {
    PushedFacts(v, x);
    var w := Pushed(v, x).0;
    PoppedFacts(w);
  }

  /** `clear` leaves an empty, valid stack and keeps the buffer. */
  lemma ClearedFacts<T>(v: StackView<T>)
    requires v.Valid()
    ensures Cleared(v).Valid() && Cleared(v).IsEmpty() && Cleared(v).buf == v.buf
  {
  }

  /** For every stack, `top` reads the slot above the stored elements,
      never the newest one: after a successful `push(x)` it returns the
      old content of the slot above `x`, or reads past the end once the
      stack is full. */
  lemma PushThenTop<T>(v: StackView<T>, x: T)
    requires v.Valid() && !v.IsFull()
    ensures var w := Pushed(v, x).0;
      w.Elements() == v.Elements() + [x] &&
      (w.IsFull() ==> Peeked(w) == PastEnd) &&
      (!w.IsFull() ==> Peeked(w) == Slot(v.buf[v.num + 1]))
  {
    PushedFacts(v, x);
  }

  /** `top` reads the slot above the newest element: after a push of 7 on
      a two-slot stack holding zeros, it returns the untouched second slot,
      and on a full stack it reads past the end. */
  lemma TopReadsAbove()
    ensures var w := Pushed(StackView([0, 0], 0, false), 7).0;
      w.Elements() == [7] && Peeked(w) == Slot(0)
    ensures Peeked(StackView([1, 2], 2, false)) == PastEnd
  {
    var w := Pushed(StackView([0, 0], 0, false), 7).0;
    assert w.buf == [7, 0];
  }

  datatype Outcome<T, R> = Outcome(view: StackView<T>, lock: LockState, result: Call<R>, rest: Env)

  /** `unlock(); OS.yield(); lock();` -- the body of the waiting loops of
      the timed operations, which hand the lock to other tasks for one
      yield. `freed` is false when the environment ran out first. */
  function Handover(s: LockState, caller: TaskId, env: Env): (w: Waited)
    ensures w.rest.clock == env.clock
  {
    var s1 := S.Unlocked(s, caller).0;
    if env.runs == [] then Waited(s1, false, env)
    else S.LockAll(Run(S.Effect, s1, env.runs[0]), caller, env.Step())
  }

  /** A handover started by the owner ends, if at all, with the caller
      owning the lock again. */
  lemma HandoverFacts(caller: TaskId, env: Env)
    requires RealTasks(env) && caller != NoTask
    ensures var w := Handover(LockState(false, caller), caller, env);
      Inv(w.state) && env.Consumed(w.rest) && RealTasks(w.rest) &&
      (w.freed ==> w.state == LockState(false, caller))
  {
    var s1 := S.Unlocked(LockState(false, caller), caller).0;
    if env.runs != [] {
      S.EffectKeepsInv();
      RunKeepsInv(S.Effect, s1, env.runs[0]);
      ConsumedStep(env);
      RealTasksConsumed(env, env.Step());
      S.LockAllFacts(Run(S.Effect, s1, env.runs[0]), caller, env.Step());
      var w := S.LockAll(Run(S.Effect, s1, env.runs[0]), caller, env.Step());
      ConsumedTrans(env, env.Step(), w.rest);
      RealTasksConsumed(env, w.rest);
    }
  }

  /** `while (cond && <reading vs deadline>) { unlock(); yield(); lock(); }`
      once `cond` holds (it cannot change while the loop runs): each pass
      reads the clock, and continues when `timeout < millis()` equals
      `past`. */
  function Relock(s: LockState, caller: TaskId, d: uint64, past: bool, env: Env): Polled
    decreases |env.clock|
  {
    if env.clock == [] then Polled(s, Pending, env)
    else if (d < env.clock[0]) != past then Polled(s, Returned(true), env.Tick())
    else
      var w := Handover(s, caller, env.Tick());
      if !w.freed then Polled(w.state, Pending, w.rest)
      else Relock(w.state, caller, d, past, w.rest)
  }

  /** The loop ends, if at all, with the caller holding the lock it held
      when it started. */
  lemma {:induction false} RelockFacts(caller: TaskId, d: uint64, past: bool, env: Env)
    requires RealTasks(env) && caller != NoTask
    ensures var p := Relock(LockState(false, caller), caller, d, past, env);
      Inv(p.state) && env.Consumed(p.rest) &&
      (p.outcome != Pending ==> p.state == LockState(false, caller))
    decreases |env.clock|
  {
    if env.clock != [] && (d < env.clock[0]) == past {
      var e := env.Tick();
      ConsumedTick(env);
      RealTasksConsumed(env, e);
      HandoverFacts(caller, e);
      var w := Handover(LockState(false, caller), caller, e);
      ConsumedTrans(env, e, w.rest);
      if w.freed {
        RealTasksConsumed(env, w.rest);
        RelockFacts(caller, d, past, w.rest);
        ConsumedTrans(env, w.rest, Relock(w.state, caller, d, past, w.rest).rest);
      }
    }
  }

  /** The rest of timed `push` once the lock is held and the loop is
      over: one more reading; no later than the deadline it unlocks and
      reports false, past it it stores, unlocks and reports true. */
  function AfterPushLoop<T>(v: StackView<T>, p: Polled, caller: TaskId, x: T, d: uint64): Outcome<T, bool>
  {
    if p.outcome == Pending || p.rest.clock == [] then Outcome(v, p.state, Pending, p.rest)
    else if d >= p.rest.clock[0] then Outcome(v, S.Unlocked(p.state, caller).0, Returned(false), p.rest.Tick())
    else Outcome(Store(v, x), S.Unlocked(p.state, caller).0, Returned(true), p.rest.Tick())
  }

  /** `lock();` followed by the waiting loop, entered only when `spin`
      (the stack is full for `push`, empty for `pop`). */
  function LockedWhile(s: LockState, caller: TaskId, d: uint64, past: bool, spin: bool, env: Env): Polled
  {
    var w := S.LockAll(s, caller, env);
    if !w.freed then Polled(w.state, Pending, w.rest)
    else if spin then Relock(w.state, caller, d, past, w.rest)
    else Polled(w.state, Returned(true), w.rest)
  }

  /** The lock and the loop end, if at all, with the caller owning the
      lock. */
  lemma LockedWhileFacts(s: LockState, caller: TaskId, d: uint64, past: bool, spin: bool, env: Env)
    requires Inv(s) && RealTasks(env) && caller != NoTask
    ensures var p := LockedWhile(s, caller, d, past, spin, env);
      Inv(p.state) && env.Consumed(p.rest) &&
      (p.outcome != Pending ==> p.state == LockState(false, caller))
  {
    S.LockAllFacts(s, caller, env);
    var w := S.LockAll(s, caller, env);
    if w.freed && spin {
      RealTasksConsumed(env, w.rest);
      RelockFacts(caller, d, past, w.rest);
      ConsumedTrans(env, w.rest, Relock(w.state, caller, d, past, w.rest).rest);
    }
  }

  /** The effect of `push(inp, timeout)`. */
  function PushFor<T>(v: StackView<T>, s: LockState, caller: TaskId, x: T, timeout: uint64, env: Env): Outcome<T, bool>
  {
    if env.clock == [] then Outcome(v, s, Pending, env)
    else
      var d := Add64(timeout, env.clock[0]);
      AfterPushLoop(v, LockedWhile(s, caller, d, true, v.IsFull(), env.Tick()), caller, x, d)
  }

  /** The effect of `pop(timeout)`: the lock, the wait while empty and not
      past the deadline, then `pop()`, whose guard locks again. */
  function PopFor<T>(v: StackView<T>, s: LockState, caller: TaskId, timeout: uint64, env: Env): Outcome<T, T>
    requires v.Valid()
  {
    if env.clock == [] then Outcome(v, s, Pending, env)
    else
      var p := LockedWhile(s, caller, Add64(timeout, env.clock[0]), false, v.IsEmpty(), env.Tick());
      if p.outcome == Pending then Outcome(v, p.state, Pending, p.rest)
      else
        var w := S.LockAll(p.state, caller, p.rest);
        if !w.freed then Outcome(v, w.state, Pending, w.rest)
        else Outcome(Popped(v).1, S.Unlocked(w.state, caller).0, Returned(Popped(v).0), w.rest)
  }

  /** What timed `push` promises about an outcome `o` reached from `env`
      with deadline `d`: it consumed part of `env`; if it returned, it read
      the clock at least twice and left the lock free; it stored exactly
      when it reports true, which happens only after a last reading past
      the deadline. */
  ghost predicate PushedBy<T>(v: StackView<T>, x: T, d: uint64, env: Env, o: Outcome<T, bool>)
  {
    var used := |env.clock| - |o.rest.clock|;
    env.Consumed(o.rest) &&
    (o.result != Pending ==> 2 <= used && o.lock == LockState(true, NoTask)) &&
    (o.result == Returned(true) ==> o.view == Store(v, x) && d < env.clock[used - 1]) &&
    (o.result != Returned(true) ==> o.view == v) &&
    (o.result == Returned(false) ==> env.clock[used - 1] <= d)
  }

  lemma AfterPushFacts<T>(v: StackView<T>, p: Polled, caller: TaskId, x: T, d: uint64, env: Env)
    requires env.Consumed(p.rest) && |p.rest.clock| < |env.clock|
    requires p.outcome != Pending ==> p.state == LockState(false, caller)
    ensures PushedBy(v, x, d, env, AfterPushLoop(v, p, caller, x, d))
  {
    var o := AfterPushLoop(v, p, caller, x, d);
    if p.outcome != Pending && p.rest.clock != [] {
      ConsumedTick(p.rest);
      ConsumedTrans(env, p.rest, p.rest.Tick());
      assert o.rest == p.rest.Tick();
      var used := |env.clock| - |o.rest.clock|;
      assert used - 1 == |env.clock| - |p.rest.clock|;
      assert env.clock[used - 1] == p.rest.clock[0];
    } else {
      assert o.rest == p.rest && o.result == Pending;
    }
  }

  /** Timed `push` is inverted: it reports false whenever its last reading
      is not past the deadline, and stores only once the deadline has
      passed; either way it leaves the lock free. */
  lemma PushForFacts<T>(v: StackView<T>, s: LockState, caller: TaskId, x: T, timeout: uint64, env: Env)
    requires Inv(s) && RealTasks(env) && caller != NoTask
    ensures env.clock == [] ==> PushFor(v, s, caller, x, timeout, env).result == Pending
    ensures env.clock != [] ==>
      PushedBy(v, x, Add64(timeout, env.clock[0]), env, PushFor(v, s, caller, x, timeout, env))
  {
    if env.clock != [] {
      var d := Add64(timeout, env.clock[0]);
      var e := env.Tick();
      ConsumedTick(env);
      RealTasksConsumed(env, e);
      LockedWhileFacts(s, caller, d, true, v.IsFull(), e);
      var p := LockedWhile(s, caller, d, true, v.IsFull(), e);
      ConsumedTrans(env, e, p.rest);
      AfterPushFacts(v, p, caller, x, d, env);
    }
  }

  /** Timed `push` can write past the end: on a full stack, a first
      reading within the deadline ends the loop and a second one past it
      makes it store at `_data[i]`, so `_num` exceeds `i`. */
  lemma PushForOverruns(caller: TaskId)
    requires caller != NoTask
    ensures var o := PushFor(StackView([5], 1, false), LockState(true, NoTask), caller, 9, 0, Env([0, 0, 1], []));
      o.result == Returned(true) && o.view.overrun && o.view.num == 2
  {
    var e := Env([0, 0, 1], []).Tick();
    assert S.LockAll(LockState(true, NoTask), caller, e).state == LockState(false, caller);
  }

  /** Timed `pop` never returns: it holds the lock when it calls `pop()`,
      whose guard then waits for the caller itself, whatever the other
      tasks do, and whether the stack is empty or not. */
  lemma PopForNeverReturns<T>(v: StackView<T>, s: LockState, caller: TaskId, timeout: uint64, env: Env)
    requires v.Valid() && Inv(s) && ByOthers(env, caller) && caller != NoTask
    ensures PopFor(v, s, caller, timeout, env).result == Pending
  {
    if env.clock != [] {
      var d := Add64(timeout, env.clock[0]);
      var e := env.Tick();
      ConsumedTick(env);
      RealTasksConsumed(env, e);
      LockedWhileFacts(s, caller, d, false, v.IsEmpty(), e);
      var p := LockedWhile(s, caller, d, false, v.IsEmpty(), e);
      if p.outcome != Pending {
        ConsumedTrans(env, e, p.rest);
        ByOthersConsumed(env, p.rest, caller);
        S.ReLockNeverReturns(caller, p.rest);
      }
    }
  }

  /** `Stack<T, i, Semaphore>`. */
  class Stack<T> {
    /** The template capacity `i`. */
    const cap: nat
    const data: array<T>
    /** `_num`. */
    var num: nat
    /** Set once a write went to an index at or past `i`. */
    var overrun: bool
    /** `_m`. */
    const m: S.Semaphore

    function View(): StackView<T>
      reads this, data
    {
      StackView(data[..], num, overrun)
    }

    predicate Valid()
      reads this, data
    {
      data.Length == cap && View().Valid()
    }

    /** `Stack()`: `_num(0)` and a free lock. */
    constructor (cap: nat, init: T)
      requires cap >= 1
      ensures Valid() && fresh(data) && fresh(m)
      ensures View() == StackView(seq(cap, _ => init), 0, false)
      ensures m.State() == LockState(true, NoTask)
    {
      this.cap := cap;
      data := new T[cap](_ => init);
      num, overrun := 0, false;
      m := new S.Semaphore();
    }

    /** `size()`. */
    function Size(): (r: nat)
      reads this, data
      requires Valid()
      ensures r <= cap && r == |View().Elements()|
    {
      num
    }

    /** `isEmpty()`. */
    function IsEmpty(): (r: bool)
      reads this, data
      requires Valid()
      ensures r <==> View().Elements() == []
    {
      num == 0
    }

    /** `isFull()`. */
    function IsFull(): (r: bool)
      reads this, data
      requires Valid()
      ensures r <==> |View().Elements()| == cap
    {
      num == cap
    }

    /** `clear()`. */
    method Clear()
      requires Valid()
      modifies this
      ensures Valid() && View() == Cleared(old(View()))
    {
      num := 0;
    }

    /** `_data[_num++] = inp;` */
    method StoreTop(x: T)
      requires data.Length == cap
      modifies this, data
      ensures View() == Store(old(View()), x)
    {
      if num < cap {
        data[num] := x;
      } else {
        overrun := true;
      }
      num := num + 1;
    }

    /** `push(inp)`. */
    method Push(x: T, caller: TaskId, env: Env) returns (r: Call<bool>, rest: Env)
      requires Valid()
      modifies this, data, m
      ensures Valid()
      ensures var w := S.LockAll(old(m.State()), caller, env);
        rest == w.rest &&
        (w.freed ==> r == Returned(Pushed(old(View()), x).1) && View() == Pushed(old(View()), x).0 &&
                     m.State() == S.Unlocked(w.state, caller).0) &&
        (!w.freed ==> r == Pending && View() == old(View()) && m.State() == w.state)
    {
      var g := new S.LockGuard(m, caller, env);
      rest := g.rest;
      if !g.locked {
        return Pending, rest;
      }
      if num == cap {
        g.Destroy();
        return Returned(false), rest;
      }
      StoreTop(x);
      g.Destroy();
      r := Returned(true);
    }

    /** `pop()`. */
    method Pop(caller: TaskId, env: Env) returns (r: Call<T>, rest: Env)
      requires Valid()
      modifies this, m
      ensures Valid()
      ensures var w := S.LockAll(old(m.State()), caller, env);
        rest == w.rest &&
        (w.freed ==> r == Returned(Popped(old(View())).0) && View() == Popped(old(View())).1 &&
                     m.State() == S.Unlocked(w.state, caller).0) &&
        (!w.freed ==> r == Pending && View() == old(View()) && m.State() == w.state)
    {
      var g := new S.LockGuard(m, caller, env);
      rest := g.rest;
      if !g.locked {
        return Pending, rest;
      }
      if num == 0 {
        r := Returned(data[num]);
      } else {
        num := num - 1;
        r := Returned(data[num]);
      }
      g.Destroy();
    }

    /** `top()`: a `PastEnd` read when full. */
    method Top(caller: TaskId, env: Env) returns (r: Call<Read<T>>, rest: Env)
      requires Valid()
      modifies m
      ensures var w := S.LockAll(old(m.State()), caller, env);
        rest == w.rest &&
        (w.freed ==> r == Returned(Peeked(View())) && m.State() == S.Unlocked(w.state, caller).0) &&
        (!w.freed ==> r == Pending && m.State() == w.state)
    {
      var g := new S.LockGuard(m, caller, env);
      rest := g.rest;
      if !g.locked {
        return Pending, rest;
      }
      r := Returned(if num < cap then Slot(data[num]) else PastEnd);
      g.Destroy();
    }

    /** The unlock-yield-lock loop of the timed operations. */
    method RelockLoop(caller: TaskId, d: uint64, past: bool, env: Env) returns (held: Call<bool>, rest: Env)
      modifies m
      ensures Relock(old(m.State()), caller, d, past, env) == Polled(m.State(), held, rest)
    {
      rest := env;
      while true
        invariant Relock(old(m.State()), caller, d, past, env) == Relock(m.State(), caller, d, past, rest)
        decreases |rest.clock|
      {
        if rest.clock == [] {
          return Pending, rest;
        }
        var now := rest.clock[0];
        rest := rest.Tick();
        if (d < now) != past {
          return Returned(true), rest;
        }
        var _, _ := m.Unlock(caller);
        if rest.runs == [] {
          return Pending, rest;
        }
        m.Interleave(rest.runs[0]);
        rest := rest.Step();
        var locked;
        locked, rest := m.Lock(caller, rest);
        if !locked {
          return Pending, rest;
        }
      }
    }

    /** `push(inp, timeout)`. On a full stack this can store past the end,
        so the result need not satisfy `Valid()`. */
    method PushTimeout(x: T, timeout: uint64, caller: TaskId, env: Env) returns (r: Call<bool>, rest: Env)
      requires Valid()
      modifies this, data, m
      ensures old(num) < cap ==> Valid()
      ensures PushFor(old(View()), old(m.State()), caller, x, timeout, env) == Outcome(View(), m.State(), r, rest)
    {
      if env.clock == [] {
        return Pending, env;
      }
      var d := Add64(timeout, env.clock[0]);
      var locked;
      locked, rest := m.Lock(caller, env.Tick());
      if !locked {
        return Pending, rest;
      }
      if num == cap {
        var held;
        held, rest := RelockLoop(caller, d, true, rest);
        if held == Pending {
          return Pending, rest;
        }
      }
      if rest.clock == [] {
        return Pending, rest;
      }
      var now := rest.clock[0];
      rest := rest.Tick();
      if d >= now {
        var _, _ := m.Unlock(caller);
        return Returned(false), rest;
      }
      StoreTop(x);
      var _, _ := m.Unlock(caller);
      r := Returned(true);
    }

    /** `pop(timeout)`. */
    method PopTimeout(timeout: uint64, caller: TaskId, env: Env) returns (r: Call<T>, rest: Env)
      requires Valid()
      modifies this, m
      ensures Valid()
      ensures PopFor(old(View()), old(m.State()), caller, timeout, env) == Outcome(View(), m.State(), r, rest)
    {
      if env.clock == [] {
        return Pending, env;
      }
      var d := Add64(timeout, env.clock[0]);
      var locked;
      locked, rest := m.Lock(caller, env.Tick());
      if !locked {
        return Pending, rest;
      }
      if num == 0 {
        var held;
        held, rest := RelockLoop(caller, d, false, rest);
        if held == Pending {
          return Pending, rest;
        }
      }
      r, rest := Pop(caller, rest);
    }
  }
}
