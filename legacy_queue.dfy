/** The older `Queue<T, i>` of include/datatypes/Queue.h, locked by the
    re-entrant `Mutex` of src/Mutex.cpp. The ring arithmetic (`next`) and
    the write are the same code as in the newer revision; `_count` is again
    never written after construction, so the waiting loops never run. */
module LegacyQueue {
  import opened Machine
  import opened Polling
  import L = LegacySignaling
  import MutexLock
  import Q = SyncQueue

  /** `enqueue(inp)`: a `LockGuard` around the write (never full); the
      guard's destructor frees the mutex. */
  function Enqueued<T>(v: Q.QueueView<T>, s: LockState, caller: TaskId, x: T, env: Env): Q.Outcome<T, bool>
  {
    var w := L.LockAll(s, caller, env);
    if !w.freed then Q.Outcome(v, w.state, Pending, w.rest)
    else Q.Outcome(Q.Push(v, x), L.Released(w.state), Returned(true), w.rest)
  }

  /** `enqueue(inp, timeout)`: a `LockGuard`, one reading for the deadline,
      the (never entered) wait while full, then the untimed `enqueue`,
      whose own guard re-enters the mutex and frees it before the outer
      guard frees it again. */
  function EnqueueFor<T>(v: Q.QueueView<T>, s: LockState, caller: TaskId, x: T, timeout: uint64, env: Env): Q.Outcome<T, bool>
  {
    var w := L.LockAll(s, caller, env);
    if !w.freed then Q.Outcome(v, w.state, Pending, w.rest)
    else if w.rest.clock == [] then Q.Outcome(v, w.state, Pending, w.rest)
    else
      var o := Enqueued(v, w.state, caller, x, w.rest.Tick());
      if o.result == Pending then o else o.(lock := L.Released(o.lock))
  }

  /** `dequeue()` and `peek()`: `_data[_back]` under a `LockGuard` (the
      queue is always empty). */
  function Dequeued<T>(v: Q.QueueView<T>, s: LockState, caller: TaskId, env: Env): Q.Outcome<T, T>
    requires v.back < |v.buf|
  {
    var w := L.LockAll(s, caller, env);
    if !w.freed then Q.Outcome(v, w.state, Pending, w.rest)
    else Q.Outcome(v, L.Released(w.state), Returned(v.buf[v.back]), w.rest)
  }

  /** `dequeue(timeout)`: a `LockGuard`, one reading for the deadline, the
      (never entered) wait, then `_data[_back]`. */
  function DequeueFor<T>(v: Q.QueueView<T>, s: LockState, caller: TaskId, timeout: uint64, env: Env): Q.Outcome<T, T>
    requires v.back < |v.buf|
  {
    var w := L.LockAll(s, caller, env);
    if !w.freed then Q.Outcome(v, w.state, Pending, w.rest)
    else if w.rest.clock == [] then Q.Outcome(v, w.state, Pending, w.rest)
    else Q.Outcome(v, L.Released(w.state), Returned(v.buf[v.back]), w.rest.Tick())
  }

  /** Timed `enqueue` ignores its timeout: once the mutex is held it reads
      the clock once and always stores the item, returning true with the
      mutex free. It waits only for the mutex. */
  lemma EnqueueForFacts<T>(v: Q.QueueView<T>, s: LockState, caller: TaskId, x: T, timeout: uint64, env: Env)
    requires Inv(s) && RealTasks(env) && caller != NoTask
    ensures var w := L.LockAll(s, caller, env);
      var o := EnqueueFor(v, s, caller, x, timeout, env);
      env.Consumed(o.rest) &&
      (o.result == Returned(true) <==> w.freed && w.rest.clock != []) &&
      (o.result == Returned(true) ==>
         o.view == Q.Push(v, x) && o.lock == LockState(true, NoTask) && o.rest == w.rest.Tick()) &&
      (o.result != Returned(true) ==> o.view == v && o.result == Pending)
  {
    L.LockAllFacts(s, caller, env);
    var w := L.LockAll(s, caller, env);
    if w.freed && w.rest.clock != [] {
      ConsumedTick(w.rest);
      ConsumedTrans(env, w.rest, w.rest.Tick());
    }
  }

  /** The timeout makes no difference to timed `enqueue`. */
  lemma EnqueueTimeoutIgnored<T>(v: Q.QueueView<T>, s: LockState, caller: TaskId, x: T, t1: uint64, t2: uint64, env: Env)
    ensures EnqueueFor(v, s, caller, x, t1, env) == EnqueueFor(v, s, caller, x, t2, env)
  {
  }

  /** Timed `dequeue` waits only for the mutex and returns `_data[_back]`
      with the mutex free. */
  lemma DequeueForFacts<T>(v: Q.QueueView<T>, s: LockState, caller: TaskId, timeout: uint64, env: Env)
    requires v.back < |v.buf| && Inv(s) && RealTasks(env) && caller != NoTask
    ensures var w := L.LockAll(s, caller, env);
      var o := DequeueFor(v, s, caller, timeout, env);
      env.Consumed(o.rest) && o.view == v &&
      (o.result == Returned(v.buf[v.back]) <==> w.freed && w.rest.clock != []) &&
      (o.result != Pending ==> o.result == Returned(v.buf[v.back]) && o.lock == LockState(true, NoTask))
  {
    L.LockAllFacts(s, caller, env);
    var w := L.LockAll(s, caller, env);
    if w.freed && w.rest.clock != [] {
      ConsumedTick(w.rest);
      ConsumedTrans(env, w.rest, w.rest.Tick());
    }
  }

  /** A task that already holds the mutex gets through the untimed
      `enqueue` at once, and the guard's destructor leaves the mutex free
      although the task had locked it first. */
  lemma EnqueueByOwnerFreesMutex<T>(v: Q.QueueView<T>, caller: TaskId, x: T, env: Env)
    requires caller != NoTask
    ensures Enqueued(v, LockState(false, caller), caller, x, env) ==
            Q.Outcome(Q.Push(v, x), LockState(true, NoTask), Returned(true), env)
  {
  }

  /** `Queue<T, i>` of include/datatypes/Queue.h. */
  class Queue<T> {
    const cap: nat
    const data: array<T>
    var front: nat
    var back: nat
    var count: nat
    /** Set once a write went to `_data[i]`. */
    var overrun: bool
    /** `_m`. */
    const m: MutexLock.Mutex

    function View(): Q.QueueView<T>
      reads this, data
    {
      Q.QueueView(data[..], front, back, count, overrun)
    }

    /** The indices lie in the array and `_count` is still 0. */
    predicate Valid()
      reads this, data
    {
      data.Length == cap && cap >= 1 && front < cap && back < cap && count == 0
    }

    /** `Queue()`: the three counters 0 and a fresh free mutex. */
    constructor (cap: nat, init: T)
      requires cap >= 1
      ensures Valid() && fresh(data) && fresh(m)
      ensures View() == Q.QueueView(seq(cap, _ => init), 0, 0, 0, false)
      ensures m.State() == LockState(true, NoTask)
    {
      this.cap := cap;
      data := new T[cap](_ => init);
      front, back, count, overrun := 0, 0, 0, false;
      m := new MutexLock.Mutex();
    }

    /** `size()`. */
    function Size(): (r: nat)
      reads this, data
      requires Valid()
      ensures r == 0
    {
      count
    }

    /** `isEmpty()`. */
    function IsEmpty(): (r: bool)
      reads this, data
      requires Valid()
      ensures r
    {
      count == 0
    }

    /** `isFull()`. */
    function IsFull(): (r: bool)
      reads this, data
      requires Valid()
      ensures !r
    {
      count == cap
    }

    /** `_data[next(_front)] = inp;` */
    method Write(x: T)
      requires Valid()
      modifies this, data
      ensures Valid() && View() == Q.Push(old(View()), x)
    {
      var at := if front + 1 >= cap then cap else front;
      front := if front + 1 >= cap then 0 else front + 1;
      if at < cap {
        data[at] := x;
      } else {
        overrun := true;
      }
    }

    /** `enqueue(inp)`. */
    method Enqueue(x: T, caller: TaskId, env: Env) returns (r: Call<bool>, rest: Env)
      requires Valid()
      modifies this, data, m
      ensures Valid()
      ensures Enqueued(old(View()), old(m.State()), caller, x, env) == Q.Outcome(View(), m.State(), r, rest)
    {
      var g := new MutexLock.LockGuard(m, caller, env);
      rest := g.rest;
      if !g.locked {
        return Pending, rest;
      }
      Write(x);
      g.Destroy();
      r := Returned(true);
    }

    /** `enqueue(inp, timeout)`. */
    method EnqueueTimeout(x: T, timeout: uint64, caller: TaskId, env: Env) returns (r: Call<bool>, rest: Env)
      requires Valid()
      modifies this, data, m
      ensures Valid()
      ensures EnqueueFor(old(View()), old(m.State()), caller, x, timeout, env) == Q.Outcome(View(), m.State(), r, rest)
    {
      var g := new MutexLock.LockGuard(m, caller, env);
      rest := g.rest;
      if !g.locked || rest.clock == [] {
        return Pending, rest;
      }
      var _ := Add64(timeout, rest.clock[0]);
      rest := rest.Tick();
      r, rest := Enqueue(x, caller, rest);
      if r == Pending {
        return;
      }
      g.Destroy();
    }

    /** `dequeue()`. */
    method Dequeue(caller: TaskId, env: Env) returns (r: Call<T>, rest: Env)
      requires Valid()
      modifies m
      ensures Valid()
      ensures Dequeued(View(), old(m.State()), caller, env) == Q.Outcome(View(), m.State(), r, rest)
    {
      var g := new MutexLock.LockGuard(m, caller, env);
      rest := g.rest;
      if !g.locked {
        return Pending, rest;
      }
      r := Returned(data[back]);
      g.Destroy();
    }

    /** `peek()`: the same effect as `dequeue()` on an empty queue. */
    method Peek(caller: TaskId, env: Env) returns (r: Call<T>, rest: Env)
      requires Valid()
      modifies m
      ensures Valid()
      ensures Dequeued(View(), old(m.State()), caller, env) == Q.Outcome(View(), m.State(), r, rest)
    {
      var g := new MutexLock.LockGuard(m, caller, env);
      rest := g.rest;
      if !g.locked {
        return Pending, rest;
      }
      r := Returned(data[back]);
      g.Destroy();
    }

    /** `dequeue(timeout)`. */
    method DequeueTimeout(timeout: uint64, caller: TaskId, env: Env) returns (r: Call<T>, rest: Env)
      requires Valid()
      modifies m
      ensures Valid()
      ensures DequeueFor(View(), old(m.State()), caller, timeout, env) == Q.Outcome(View(), m.State(), r, rest)
    {
      var g := new MutexLock.LockGuard(m, caller, env);
      rest := g.rest;
      if !g.locked || rest.clock == [] {
        return Pending, rest;
      }
      var _ := Add64(timeout, rest.clock[0]);
      rest := rest.Tick();
      r := Returned(data[back]);
      g.Destroy();
    }
  }
}
