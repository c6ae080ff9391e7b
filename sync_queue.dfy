/** The thread-safe ring-buffer `Queue<T, i, L>` of src/datatypes/Queue.h,
    with its default lock `L = Semaphore` of src/datatypes/Signaling.h.
    `_count` is set to 0 by the constructor and never written again, so
    `isEmpty()` is always true and `isFull()` always false. */
module SyncQueue {
  import opened Machine
  import opened Polling
  import S = Signaling

  /** `next(n)`: "n++ but wraps around i". The pair is the returned index
      and the new value of `n`. On wrap it returns `i` itself. */
  function Next(n: nat, cap: nat): (nat, nat)
  {
    if n + 1 >= cap then (cap, 0) else (n, n + 1)
  }

  /** The value state of a queue: `_data`, `_front`, `_back`, `_count`,
      and whether a write ever went to `_data[i]`, one past the end. */
  datatype QueueView<T> = QueueView(buf: seq<T>, front: nat, back: nat, count: nat, overrun: bool)
  {
    predicate IsEmpty() { count == 0 }
    predicate IsFull() { count == |buf| }
  }

  /** `_data[next(_front)] = inp;` -- a write to index `i` lands past the
      array and leaves `_data` unchanged. */
  function Push<T>(v: QueueView<T>, x: T): QueueView<T>
  {
    var (at, f) := Next(v.front, |v.buf|);
    if at < |v.buf| then v.(buf := v.buf[at := x], front := f)
    else v.(front := f, overrun := true)
  }

  /** `next` keeps an index of `[0, i)` in range; it returns the old value
      except on wrap, where it returns `i` (its documentation promises the
      value before the increment). */
  lemma NextFacts(n: nat, cap: nat)
    requires n < cap
    ensures Next(n, cap).1 < cap
    ensures n + 1 < cap ==> Next(n, cap) == (n, n + 1)
    ensures n + 1 == cap ==> Next(n, cap) == (cap, 0) && Next(n, cap).0 != n
  {
  }

  /** A write never changes `_count`, `_back`, or the length of the
      buffer; it stores `x` at `_front` except on the last slot, where it
      overruns. */
  lemma PushFacts<T>(v: QueueView<T>, x: T)
    requires v.front < |v.buf|
    ensures var w := Push(v, x);
      w.count == v.count && w.back == v.back && |w.buf| == |v.buf| && w.front < |w.buf| &&
      (v.front + 1 < |v.buf| ==> w.buf == v.buf[v.front := x] && !(w.overrun && !v.overrun)) &&
      (v.front + 1 == |v.buf| ==> w.buf == v.buf && w.overrun && w.front == 0)
  {
  }

  /** From an empty queue (`_front == 0`), `i - 1` writes fill slots
      `0 .. i-2` in order and the `i`-th goes past the array. */
  lemma {:induction false} PushAll<T>(v: QueueView<T>, xs: seq<T>)
    requires v.front + |xs| < |v.buf|
    ensures var w := PushSeq(v, xs);
      w.front == v.front + |xs| && w.overrun == v.overrun && |w.buf| == |v.buf| &&
      w.buf[v.front .. v.front + |xs|] == xs &&
      w.buf[..v.front] == v.buf[..v.front] && w.buf[v.front + |xs|..] == v.buf[v.front + |xs|..]
    decreases |xs|
  {
    if xs != [] {
      var v' := Push(v, xs[0]);
      NextFacts(v.front, |v.buf|);
      PushFacts(v, xs[0]);
      PushAll(v', xs[1..]);
      var w := PushSeq(v', xs[1..]);
      assert PushSeq(v, xs) == w;
      SliceStep(v.buf, v'.buf, w.buf, v.front, xs);
    }
  }

  /** The sequence step of `PushAll`: storing `xs[0]` at `f` and then the
      rest of `xs` just above it stores all of `xs` from `f`. */
  lemma SliceStep<T>(a: seq<T>, b: seq<T>, c: seq<T>, f: nat, xs: seq<T>)
    requires xs != [] && |a| == |b| == |c| && f + |xs| < |a| && b == a[f := xs[0]]
    requires c[f + 1 .. f + |xs|] == xs[1..]
    requires c[..f + 1] == b[..f + 1] && c[f + |xs|..] == b[f + |xs|..]
    ensures c[f .. f + |xs|] == xs && c[..f] == a[..f] && c[f + |xs|..] == a[f + |xs|..]
  {
    assert c[f] == c[..f + 1][f];
    assert c[f .. f + |xs|] == [c[f]] + c[f + 1 .. f + |xs|];
    assert c[..f] == c[..f + 1][..f];
    assert b[f + |xs|..] == a[f + |xs|..];
  }

  /** Several writes one after the other. */
  function PushSeq<T>(v: QueueView<T>, xs: seq<T>): QueueView<T>
    decreases |xs|
  {
    if xs == [] then v else PushSeq(Push(v, xs[0]), xs[1..])
  }

  /** Filling an empty queue as written: after `i - 1` writes the `i`-th
      goes to `_data[i]`, past the array, so it is lost and its slot
      `i - 1` keeps its old value. */
  lemma FillOverruns<T>(v: QueueView<T>, xs: seq<T>, x: T)
    requires v.front == 0 && |xs| + 1 == |v.buf|
    ensures var w := Push(PushSeq(v, xs), x);
      |w.buf| == |v.buf| && w.overrun && w.front == 0 && w.buf[..|xs|] == xs && w.buf[|xs|] == v.buf[|xs|]
  {
    PushAll(v, xs);
    PushFacts(PushSeq(v, xs), x);
  }

  /** `next` as its documentation describes it: always the value before
      the increment, with `n` wrapping to 0 after the last slot. */
  function NextIntended(n: nat, cap: nat): (nat, nat)
  {
    (n, if n + 1 >= cap then 0 else n + 1)
  }

  /** `_data[next(_front)] = inp;` with the intended `next`. */
  function PushIntended<T>(v: QueueView<T>, x: T): QueueView<T>
  {
    var (at, f) := NextIntended(v.front, |v.buf|);
    if at < |v.buf| then v.(buf := v.buf[at := x], front := f)
    else v.(front := f, overrun := true)
  }

  /** The intended `next` agrees with the written one except on the last
      slot, and with it `i` writes into an empty queue store all `i`
      items in order, never past the array, and bring `_front` back to 0. */
  lemma FillIntended<T>(v: QueueView<T>, xs: seq<T>, x: T)
    requires v.front == 0 && |xs| + 1 == |v.buf|
    ensures forall n :: 0 <= n < |xs| ==> NextIntended(n, |v.buf|) == Next(n, |v.buf|)
    ensures var w := PushIntended(PushSeq(v, xs), x);
      w.overrun == v.overrun && w.front == 0 && w.buf == xs + [x]
  {
    PushAll(v, xs);
    var u := PushSeq(v, xs);
    var w := PushIntended(u, x);
    assert w.buf == u.buf[|xs| := x];
    assert w.buf[..|xs|] == xs;
  }

  /** The lock loop at the start of both timed operations:
      `while (!_m.lockImmediate() && timeout < millis()) OS.yield();`. It
      retries only while the deadline has already passed; the result says
      whether it holds the lock. */
  function TryLockLoop(s: LockState, caller: TaskId, d: uint64, env: Env): Polled
    decreases |env.clock|
  {
    if s.free then Polled(LockState(false, caller), Returned(true), env)
    else if env.clock == [] then Polled(s, Pending, env)
    else if !(d < env.clock[0]) then Polled(s, Returned(false), env.Tick())
    else if env.runs == [] then Polled(s, Pending, env.Tick())
    else TryLockLoop(Run(S.Effect, s, env.runs[0]), caller, d, env.Tick().Step())
  }

  /** `p` is what remains after a lock loop over `env` with deadline `d`:
      it consumed part of `env`, and if it gave up without the lock, its
      last reading had not passed the deadline. */
  predicate GaveUpBy(env: Env, p: Polled, d: uint64)
  {
    var used := |env.clock| - |p.rest.clock|;
    env.Consumed(p.rest) &&
    (p.outcome == Returned(false) ==> 1 <= used && env.clock[used - 1] <= d)
  }

  /** The loop consumes a prefix of the environment; it gives up without
      the lock right after a reading that has not passed the deadline. */
  lemma {:induction false} TryLockLoopClock(s: LockState, caller: TaskId, d: uint64, env: Env)
    ensures GaveUpBy(env, TryLockLoop(s, caller, d, env), d)
    decreases |env.clock|
  {
    if s.free || env.clock == [] {
      assert TryLockLoop(s, caller, d, env).rest == env;
    } else if !(d < env.clock[0]) || env.runs == [] {
      assert TryLockLoop(s, caller, d, env).rest == env.Tick();
      ConsumedTick(env);
    } else {
      var e := env.Tick().Step();
      var s1 := Run(S.Effect, s, env.runs[0]);
      TryLockLoopClock(s1, caller, d, e);
      var g := TryLockLoop(s1, caller, d, e);
      assert TryLockLoop(s, caller, d, env) == g;
      GaveUpTickStep(env, g, d);
    }
  }

  /** One reading and one yield in front of a loop keep `GaveUpBy` true
      of the whole environment. */
  lemma GaveUpTickStep(env: Env, g: Polled, d: uint64)
    requires |env.clock| > 0 && |env.runs| > 0 && GaveUpBy(env.Tick().Step(), g, d)
    ensures GaveUpBy(env, g, d)
  {
    var e := env.Tick().Step();
    ConsumedTickStep(env, g.rest);
    if g.outcome == Returned(false) {
      var used := |e.clock| - |g.rest.clock|;
      assert env.clock[(|env.clock| - |g.rest.clock|) - 1] == e.clock[used - 1];
    }
  }

  /** The loop reports true only with the caller holding the lock, and
      false only with the lock held (by another task, `TryLockLoopOwnsIff`,
      unless the caller held it already: `lockImmediate` has no re-entry
      check). */
  lemma {:induction false} TryLockLoopState(s: LockState, caller: TaskId, d: uint64, env: Env)
    requires Inv(s) && RealTasks(env) && caller != NoTask
    ensures var p := TryLockLoop(s, caller, d, env);
      Inv(p.state) &&
      (p.outcome == Returned(true) ==> p.state == LockState(false, caller)) &&
      (p.outcome == Returned(false) ==> !p.state.free)
    decreases |env.clock|
  {
    if !s.free && env.clock != [] && d < env.clock[0] && env.runs != [] {
      S.EffectKeepsInv();
      RunKeepsInv(S.Effect, s, env.runs[0]);
      var e := env.Tick().Step();
      assert RealTasks(e);
      TryLockLoopState(Run(S.Effect, s, env.runs[0]), caller, d, e);
    }
  }

  /** Whatever the lock was, a true result leaves it held by the caller. */
  lemma {:induction false} TryLockLoopTaken(s: LockState, caller: TaskId, d: uint64, env: Env)
    ensures var p := TryLockLoop(s, caller, d, env);
      p.outcome == Returned(true) ==> p.state == LockState(false, caller)
    decreases |env.clock|
  {
    if !s.free && env.clock != [] && d < env.clock[0] && env.runs != [] {
      TryLockLoopTaken(Run(S.Effect, s, env.runs[0]), caller, d, env.Tick().Step());
    }
  }

  /** Starting without the lock, the loop never makes the caller the
      owner unless it reports true. */
  lemma {:induction false} TryLockLoopNeverGrants(s: LockState, caller: TaskId, d: uint64, env: Env)
    requires s.owner != caller && caller != NoTask && ByOthers(env, caller)
    ensures var p := TryLockLoop(s, caller, d, env);
      p.outcome != Returned(true) ==> p.state.owner != caller
    decreases |env.clock|
  {
    if !s.free && env.clock != [] && d < env.clock[0] && env.runs != [] {
      S.RunNeverGrants(caller, s, env.runs[0]);
      assert ByOthers(env.Tick(), caller);
      ByOthersStep(env.Tick(), caller);
      TryLockLoopNeverGrants(Run(S.Effect, s, env.runs[0]), caller, d, env.Tick().Step());
    }
  }

  /** For a caller that does not hold the lock yet, a finished lock loop
      reports true exactly when the caller holds the lock; on false the
      lock is held by another task. */
  lemma TryLockLoopOwnsIff(s: LockState, caller: TaskId, d: uint64, env: Env)
    requires Inv(s) && s.owner != caller && ByOthers(env, caller) && caller != NoTask
    ensures var p := TryLockLoop(s, caller, d, env);
      p.outcome != Pending ==>
        (p.outcome == Returned(true) <==> p.state.owner == caller) &&
        (p.outcome == Returned(false) ==> !p.state.free && p.state.owner != caller)
  {
    assert RealTasks(env);
    TryLockLoopState(s, caller, d, env);
    TryLockLoopNeverGrants(s, caller, d, env);
  }

  /** With the caller already holding the lock, `lockImmediate` fails on
      it, so the loop can report false with the caller still the owner. */
  lemma TryLockLoopFailsOwner(caller: TaskId)
    requires caller != NoTask
    ensures TryLockLoop(LockState(false, caller), caller, 10, Env([5], [])) ==
            Polled(LockState(false, caller), Returned(false), Env([], []))
  {
  }

  datatype Outcome<T, R> = Outcome(view: QueueView<T>, lock: LockState, result: Call<R>, rest: Env)

  /** The effect of `enqueue(inp, timeout)` on a queue that is not full:
      the deadline, the lock loop, then one more reading; past the
      deadline it returns false and keeps whatever lock it holds;
      otherwise it writes, calls `unlock` and returns true, whether or not
      it held the lock. */
  function EnqueueFor<T>(v: QueueView<T>, s: LockState, caller: TaskId, x: T, timeout: uint64, env: Env): Outcome<T, bool>
    requires !v.IsFull()
  {
    if env.clock == [] then Outcome(v, s, Pending, env)
    else
      var d := Add64(timeout, env.clock[0]);
      EnqueueAfterLoop(v, TryLockLoop(s, caller, d, env.Tick()), caller, x, d)
  }

  /** The rest of timed `enqueue` once the lock loop ended with `p`. */
  function EnqueueAfterLoop<T>(v: QueueView<T>, p: Polled, caller: TaskId, x: T, d: uint64): Outcome<T, bool>
  {
    if p.outcome == Pending || p.rest.clock == [] then Outcome(v, p.state, Pending, p.rest)
    else if d < p.rest.clock[0] then Outcome(v, p.state, Returned(false), p.rest.Tick())
    else Outcome(Push(v, x), S.Unlocked(p.state, caller).0, Returned(true), p.rest.Tick())
  }

  /** The effect of `dequeue(timeout)` on an empty queue (the only kind
      there is): the deadline, the lock loop, then a `LockGuard` that
      calls `lock()` -- which never returns if the loop took the lock --
      and `_data[_back]` under the guard. */
  function DequeueFor<T>(v: QueueView<T>, s: LockState, caller: TaskId, timeout: uint64, env: Env): Outcome<T, T>
    requires v.IsEmpty() && v.back < |v.buf|
  {
    if env.clock == [] then Outcome(v, s, Pending, env)
    else
      var d := Add64(timeout, env.clock[0]);
      var p := TryLockLoop(s, caller, d, env.Tick());
      var s1, held, e1 := p.state, p.outcome, p.rest;
      if held == Pending then Outcome(v, s1, Pending, e1)
      else
        var w := S.LockAll(s1, caller, e1);
        if !w.freed then Outcome(v, w.state, Pending, w.rest)
        else Outcome(v, S.Unlocked(w.state, caller).0, Returned(v.buf[v.back]), w.rest)
  }

  /** What timed `enqueue` promises about an outcome `o`, for the
      deadline `d`: the queue is written only on a true result, which
      comes right after a reading that has not passed the deadline; any
      other result leaves the queue as it was. */
  ghost predicate EnqueuedBy<T>(v: QueueView<T>, x: T, d: uint64, env: Env, o: Outcome<T, bool>)
  {
    var used := |env.clock| - |o.rest.clock|;
    env.Consumed(o.rest) &&
    (o.result == Returned(true) ==> o.view == Push(v, x) && 2 <= used && env.clock[used - 1] <= d) &&
    (o.result != Returned(true) ==> o.view == v)
  }

  /** Timed `enqueue` keeps the promise of `EnqueuedBy` for the deadline
      computed from its first reading, and without one it is pending. */
  lemma EnqueueForFacts<T>(v: QueueView<T>, s: LockState, caller: TaskId, x: T, timeout: uint64, env: Env)
    requires !v.IsFull()
    ensures env.clock == [] ==> EnqueueFor(v, s, caller, x, timeout, env) == Outcome(v, s, Pending, env)
    ensures env.clock != [] ==>
      EnqueuedBy(v, x, Add64(timeout, env.clock[0]), env, EnqueueFor(v, s, caller, x, timeout, env))
  {
    if env.clock != [] {
      var d := Add64(timeout, env.clock[0]);
      var e := env.Tick();
      ConsumedTick(env);
      TryLockLoopClock(s, caller, d, e);
      var p := TryLockLoop(s, caller, d, e);
      ConsumedTrans(env, e, p.rest);
      AfterLoopFacts(v, p, caller, x, d, env);
    }
  }

  lemma AfterLoopFacts<T>(v: QueueView<T>, p: Polled, caller: TaskId, x: T, d: uint64, env: Env)
    requires env.Consumed(p.rest) && |p.rest.clock| < |env.clock|
    ensures EnqueuedBy(v, x, d, env, EnqueueAfterLoop(v, p, caller, x, d))
  {
    var o := EnqueueAfterLoop(v, p, caller, x, d);
    if p.outcome != Pending && p.rest.clock != [] {
      ConsumedTick(p.rest);
      ConsumedTrans(env, p.rest, p.rest.Tick());
      assert o.rest == p.rest.Tick();
      var used := |env.clock| - |o.rest.clock|;
      assert used - 1 == |env.clock| - |p.rest.clock|;
      assert env.clock[used - 1] == p.rest.clock[0];
    } else {
      assert o.rest == p.rest && o.result == Pending;
    }
  }

  /** The comment at the false return ("we dont have a lock anyways") is
      wrong: on a free lock the loop takes it at once, and if the next
      reading is past the deadline the call returns false with the lock
      still held by the caller. */
  lemma EnqueueForLeaksLock<T>(v: QueueView<T>, caller: TaskId, x: T)
    requires !v.IsFull() && caller != NoTask
    ensures var o := EnqueueFor(v, LockState(true, NoTask), caller, x, 0, Env([0, 1], []));
      o.result == Returned(false) && o.lock == LockState(false, caller)
  {
  }

  /** With the deadline still ahead, a lock held by task `a` makes the
      loop give up at once, and the write happens without the lock; the
      following `unlock` by a non-owner fails and the lock stays `a`'s. */
  lemma EnqueueForWritesUnlocked<T>(v: QueueView<T>, a: TaskId, caller: TaskId, x: T)
    requires !v.IsFull() && a != caller && a != NoTask && caller != NoTask
    ensures var o := EnqueueFor(v, LockState(false, a), caller, x, 10, Env([0, 1, 2], []));
      o.result == Returned(true) && o.view == Push(v, x) && o.lock == LockState(false, a)
  {
  }

  /** If the lock loop took the lock -- at once or after yields -- the
      guard's `lock()` waits for the caller itself: timed `dequeue` never
      returns. On a lock free at the call the loop always takes it. */
  lemma DequeueForDeadlocks<T>(v: QueueView<T>, s: LockState, caller: TaskId, timeout: uint64, env: Env)
    requires v.IsEmpty() && v.back < |v.buf| && caller != NoTask && ByOthers(env, caller) && |env.clock| > 0
    ensures TryLockLoop(s, caller, Add64(timeout, env.clock[0]), env.Tick()).outcome == Returned(true) ==>
            DequeueFor(v, s, caller, timeout, env).result == Pending
    ensures s.free ==> DequeueFor(v, s, caller, timeout, env).result == Pending
  {
    var d := Add64(timeout, env.clock[0]);
    var e := env.Tick();
    var p := TryLockLoop(s, caller, d, e);
    if p.outcome == Returned(true) {
      TryLockLoopClock(s, caller, d, e);
      assert ByOthers(e, caller);
      ByOthersConsumed(e, p.rest, caller);
      TryLockLoopTaken(s, caller, d, e);
      S.ReLockNeverReturns(caller, p.rest);
    }
  }

  /** `Queue<T, i, Semaphore>`. */
  class Queue<T> {
    /** The template capacity `i`. */
    const cap: nat
    const data: array<T>
    var front: nat
    var back: nat
    var count: nat
    /** Set once a write went to `_data[i]`. */
    var overrun: bool
    /** `_m`. */
    const m: S.Semaphore

    function View(): QueueView<T>
      reads this, data
    {
      QueueView(data[..], front, back, count, overrun)
    }

    /** The indices lie in the array and `_count` is still 0. */
    predicate Valid()
      reads this, data
    {
      data.Length == cap && cap >= 1 && front < cap && back < cap && count == 0
    }

    /** `Queue()`: all three counters 0 and a fresh free lock; `_data` has
        the element type's default value `init`. */
    constructor (cap: nat, init: T)
      requires cap >= 1
      ensures Valid() && fresh(data) && fresh(m)
      ensures View() == QueueView(seq(cap, _ => init), 0, 0, 0, false)
      ensures m.State() == LockState(true, NoTask)
    {
      this.cap := cap;
      data := new T[cap](_ => init);
      front, back, count, overrun := 0, 0, 0, false;
      m := new S.Semaphore();
    }

    /** `size()`: always 0. */
    function Size(): (r: nat)
      reads this, data
      requires Valid()
      ensures r == 0
    {
      count
    }

    /** `isEmpty()`: always true. */
    function IsEmpty(): (r: bool)
      reads this, data
      requires Valid()
      ensures r
    {
      count == 0
    }

    /** `isFull()`: always false, since `i >= 1`. */
    function IsFull(): (r: bool)
      reads this, data
      requires Valid()
      ensures !r
    {
      count == cap
    }

    /** `_data[next(_front)] = inp;` */
    method Write(x: T)
      requires Valid()
      modifies this, data
      ensures Valid() && View() == Push(old(View()), x)
    {
      var at := if front + 1 >= cap then cap else front;
      front := if front + 1 >= cap then 0 else front + 1;
      if at < cap {
        data[at] := x;
      } else {
        overrun := true;
      }
    }

    /** `enqueue(inp)`: under a `LockGuard`; `isFull()` is false, so the
        item is written and the result is true once the guard's `lock()`
        returns. */
    method Enqueue(x: T, caller: TaskId, env: Env) returns (r: Call<bool>, rest: Env)
      requires Valid()
      modifies this, data, m
      ensures Valid()
      ensures var w := S.LockAll(old(m.State()), caller, env);
        rest == w.rest &&
        (w.freed ==> r == Returned(true) && View() == Push(old(View()), x) &&
                     m.State() == S.Unlocked(w.state, caller).0) &&
        (!w.freed ==> r == Pending && View() == old(View()) && m.State() == w.state)
    {
      var g := new S.LockGuard(m, caller, env);
      rest := g.rest;
      if !g.locked {
        r := Pending;
        return;
      }
      Write(x);
      g.Destroy();
      r := Returned(true);
    }

    /** `dequeue()`: under a `LockGuard`; `isEmpty()` is true, so it returns
        `_data[_back]` and moves nothing. */
    method Dequeue(caller: TaskId, env: Env) returns (r: Call<T>, rest: Env)
      requires Valid()
      modifies m
      ensures Valid()
      ensures var w := S.LockAll(old(m.State()), caller, env);
        rest == w.rest &&
        (w.freed ==> r == Returned(data[back]) && m.State() == S.Unlocked(w.state, caller).0) &&
        (!w.freed ==> r == Pending && m.State() == w.state)
    {
      var g := new S.LockGuard(m, caller, env);
      rest := g.rest;
      if !g.locked {
        r := Pending;
        return;
      }
      r := Returned(data[back]);
      g.Destroy();
    }

    /** `peek()`: `_data[_back]` under a `LockGuard`. */
    method Peek(caller: TaskId, env: Env) returns (r: Call<T>, rest: Env)
      requires Valid()
      modifies m
      ensures Valid()
      ensures var w := S.LockAll(old(m.State()), caller, env);
        rest == w.rest &&
        (w.freed ==> r == Returned(data[back]) && m.State() == S.Unlocked(w.state, caller).0) &&
        (!w.freed ==> r == Pending && m.State() == w.state)
    {
      var g := new S.LockGuard(m, caller, env);
      rest := g.rest;
      if !g.locked {
        r := Pending;
        return;
      }
      r := Returned(data[back]);
      g.Destroy();
    }

    /** The lock loop shared by the timed operations. */
    method LockLoop(caller: TaskId, d: uint64, env: Env) returns (held: Call<bool>, rest: Env)
      modifies m
      ensures TryLockLoop(old(m.State()), caller, d, env) == Polled(m.State(), held, rest)
    {
      rest := env;
      while true
        invariant TryLockLoop(old(m.State()), caller, d, env) == TryLockLoop(m.State(), caller, d, rest)
        decreases |rest.clock|
      {
        var got := m.LockImmediate(caller);
        if got {
          return Returned(true), rest;
        }
        if rest.clock == [] {
          return Pending, rest;
        }
        var now := rest.clock[0];
        rest := rest.Tick();
        if !(d < now) {
          return Returned(false), rest;
        }
        if rest.runs == [] {
          return Pending, rest;
        }
        m.Interleave(rest.runs[0]);
        rest := rest.Step();
      }
    }

    /** `enqueue(inp, timeout)`. The second loop and the `isFull()` branch
        are skipped: `isFull()` is false. */
    method EnqueueTimeout(x: T, timeout: uint64, caller: TaskId, env: Env) returns (r: Call<bool>, rest: Env)
      requires Valid()
      modifies this, data, m
      ensures Valid()
      ensures EnqueueFor(old(View()), old(m.State()), caller, x, timeout, env) == Outcome(View(), m.State(), r, rest)
    {
      if env.clock == [] {
        return Pending, env;
      }
      var d := Add64(timeout, env.clock[0]);
      var held;
      held, rest := LockLoop(caller, d, env.Tick());
      if held == Pending {
        return Pending, rest;
      }
      if rest.clock == [] {
        return Pending, rest;
      }
      var now := rest.clock[0];
      rest := rest.Tick();
      if d < now {
        return Returned(false), rest;
      }
      Write(x);
      var _, _ := m.Unlock(caller);
      r := Returned(true);
    }

    /** `dequeue(timeout)`. The second loop is skipped (`isFull()` is
        false) and so is the non-empty branch (`isEmpty()` is true). */
    method DequeueTimeout(timeout: uint64, caller: TaskId, env: Env) returns (r: Call<T>, rest: Env)
      requires Valid()
      modifies m
      ensures Valid()
      ensures DequeueFor(View(), old(m.State()), caller, timeout, env) == Outcome(View(), m.State(), r, rest)
    {
      if env.clock == [] {
        return Pending, env;
      }
      var d := Add64(timeout, env.clock[0]);
      var held;
      held, rest := LockLoop(caller, d, env.Tick());
      if held == Pending {
        return Pending, rest;
      }
      var g := new S.LockGuard(m, caller, rest);
      rest := g.rest;
      if !g.locked {
        return Pending, rest;
      }
      r := Returned(data[back]);
      g.Destroy();
    }
  }
}
