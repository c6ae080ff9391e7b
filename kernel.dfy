/** The cooperative kernel of src/scheduler.cpp: the task table filled by
    `addTask`, the bookkeeping of `begin`, the downward round-robin switch
    of `v()`, the busy-wait delays and `getTaskID`. Saving and restoring
    machine context is not modelled; a switch is one step that changes the
    current index. */
module Kernel {
  import opened Machine

  /** `ARDRTOS_TASK_COUNT`, the size of `tasks[]`. */
  const TaskCount: nat := 8

  /** The identity of a task function (`osFuncCall` / `osFuncCallArg`). */
  type FuncRef = nat

  /** The identity of a task argument; 0 is the null pointer. */
  type ArgRef = nat

  /** One entry of `tasks[]`: function, argument and stack size. */
  datatype TaskEntry = TaskEntry(fc: FuncRef, arg: ArgRef, ss: uint16)

  /** The switch of `v()`: from index 0 to `numt`, otherwise one down. */
  function Rotate(c: uint8, n: uint8): uint8
  {
    if c == 0 then n else c - 1
  }

  /** The current index after `k` switches from `c`. */
  function Rotations(c: uint8, n: uint8, k: nat): uint8
    decreases k
  {
    if k == 0 then c else Rotations(Rotate(c, n), n, k - 1)
  }

  /** Switches never leave `[0, numt]`. */
  lemma {:induction false} RotationsBound(c: uint8, n: uint8, k: nat)
    requires c <= n
    ensures Rotations(c, n, k) <= n
    decreases k
  {
    if k > 0 {
      RotationsBound(Rotate(c, n), n, k - 1);
    }
  }

  /** Within one round the index counts down from `c` to 0, then from
      `numt` down. */
  lemma {:induction false} RotationsClosedForm(c: uint8, n: uint8, k: nat)
    requires c <= n && k <= n as nat + 1
    ensures Rotations(c, n, k) as int == if k <= c as nat then c as int - k else c as int - k + n as int + 1
    decreases k
  {
    if k > 0 {
      RotationsClosedForm(Rotate(c, n), n, k - 1);
    }
  }

  /** `a + b` switches are `a` switches followed by `b` switches. */
  lemma {:induction false} RotationsAdd(c: uint8, n: uint8, a: nat, b: nat)
    ensures Rotations(c, n, a + b) == Rotations(Rotations(c, n, a), n, b)
    decreases a
  {
    if a > 0 {
      RotationsAdd(Rotate(c, n), n, a - 1, b);
    }
  }

  /** The indices run in `numt + 1` consecutive switches from switch
      `start` on. */
  function Window(c: uint8, n: uint8, start: nat): set<uint8>
  {
    set i | start <= i <= start + n as nat :: Rotations(c, n, i)
  }

  /** Any `numt + 1` consecutive switches, from switch `start` on, visit
      every index of `[0, numt]` exactly once, and the next switch is back
      where the window began. */
  lemma RoundVisitsAll(c: uint8, n: uint8, start: nat)
    requires c <= n
    ensures forall j: uint8 :: j in Window(c, n, start) <==> j <= n
    ensures forall i1, i2 :: start <= i1 < i2 <= start + n as nat ==> Rotations(c, n, i1) != Rotations(c, n, i2)
    ensures Rotations(c, n, start + n as nat + 1) == Rotations(c, n, start)
  {
    var d := Rotations(c, n, start);
    RotationsBound(c, n, start);
    forall i | start <= i
      ensures Rotations(c, n, i) == Rotations(d, n, i - start)
    {
      RotationsAdd(c, n, start, i - start);
    }
    var visited := Window(c, n, start);
    forall j: uint8 | j <= n
      ensures j in visited
    {
      var k: nat := if j <= d then d as int - j else d as int - j + n as int + 1;
      RotationsClosedForm(d, n, k);
      assert Rotations(c, n, start + k) == j;
    }
    forall i | start <= i <= start + n as nat
      ensures Rotations(c, n, i) <= n
    {
      RotationsClosedForm(d, n, i - start);
    }
    forall i1, i2 | start <= i1 < i2 <= start + n as nat
      ensures Rotations(c, n, i1) != Rotations(c, n, i2)
    {
      RotationsClosedForm(d, n, i1 - start);
      RotationsClosedForm(d, n, i2 - start);
    }
    RotationsClosedForm(d, n, n as nat + 1);
  }

  /** Elapsed time as the source computes it: `now - calledTime` in
      unsigned 32-bit arithmetic. */
  function Elapsed(now: uint32, called: uint32): uint32
  {
    Sub32(now, called)
  }

  /** The difference is wrap-tolerant: for a real elapsed time below 2^32
      it is exact, however often the counter wrapped in between. */
  lemma ElapsedWrapTolerant(t0: nat, e: nat)
    requires e < Word32
    ensures Elapsed((t0 + e) % Word32, t0 % Word32) == e
  {
    var a := (t0 + e) % Word32;
    var b := t0 % Word32;
    var q0 := t0 / Word32;
    var q1 := (t0 + e) / Word32;
    assert t0 == q0 * Word32 + b;
    assert t0 + e == q1 * Word32 + a;
    assert a - b == e - (q1 - q0) * Word32;
    if a >= b {
      assert (q1 - q0) * Word32 <= e;
      assert q1 - q0 == 0;
    } else {
      assert (q1 - q0) * Word32 > e;
      assert q1 - q0 == 1;
    }
  }

  /** `delay` stops at reading `used - 1`: the first reading after the
      first whose elapsed time exceeds `ms`. */
  ghost predicate DelayEnds(ms: uint32, clock: seq<uint32>, used: nat)
  {
    2 <= used <= |clock| && Elapsed(clock[used - 1], clock[0]) > ms &&
    forall j :: 1 <= j < used - 1 ==> Elapsed(clock[j], clock[0]) <= ms
  }

  /** No reading after the first has an elapsed time beyond `ms`: `delay`
      is still yielding when the readings run out. */
  ghost predicate DelayWaits(ms: uint32, clock: seq<uint32>)
  {
    forall j :: 1 <= j < |clock| ==> Elapsed(clock[j], clock[0]) <= ms
  }

  /** `delay(0xFFFFFFFF)` never returns: no elapsed time exceeds it. */
  lemma DelayForeverAtMax(clock: seq<uint32>)
    ensures DelayWaits(0xFFFF_FFFF, clock)
    ensures forall used :: !DelayEnds(0xFFFF_FFFF, clock, used)
  {
  }

  /** A target in the past: `delayUntill(t)` with `t` lying `d` before its
      reading `clock[0]` hands `delay` the argument `2^32 - d`, so the wait
      over the later readings ends only at one more than `2^32 - d` after
      its start, and goes on while no reading is that late -- almost a
      full wrap. */
  lemma PastTargetWaitsNearlyWrap(d: uint32, clock: seq<uint32>, used: nat)
    requires 0 < d && 2 <= |clock|
    ensures var ms := Sub32(Sub32(clock[0], d), clock[0]);
      ms == Word32 - d &&
      (DelayEnds(ms, clock[1..], used) ==> Elapsed(clock[used], clock[1]) > Word32 - d) &&
      ((forall j :: 2 <= j < |clock| ==> Elapsed(clock[j], clock[1]) <= Word32 - d) ==> DelayWaits(ms, clock[1..]))
  {
    var ms := Sub32(Sub32(clock[0], d), clock[0]);
    assert ms == Word32 - d;
    if DelayEnds(ms, clock[1..], used) {
      assert clock[1..][used - 1] == clock[used];
    }
    if forall j :: 2 <= j < |clock| ==> Elapsed(clock[j], clock[1]) <= Word32 - d {
      forall j | 1 <= j < |clock[1..]|
        ensures Elapsed(clock[1..][j], clock[1..][0]) <= ms
      {
        assert clock[1..][j] == clock[j + 1];
      }
    }
  }

  /** What one task does for ever once started: call its function, with
      its argument when that is not null, then yield. */
  datatype Action = CallPlain(fc: FuncRef) | CallWithArg(fc: FuncRef, arg: ArgRef) | Yield

  function Invocation(e: TaskEntry): Action
  {
    if e.arg != 0 then CallWithArg(e.fc, e.arg) else CallPlain(e.fc)
  }

  /** The trampoline of `begin` run for `rounds` rounds: a task function
      that returns is invoked again after every yield. */
  method TaskLoop(e: TaskEntry, rounds: nat) returns (trace: seq<Action>)
    ensures |trace| == 2 * rounds
    ensures forall j :: 0 <= j < |trace| ==> trace[j] == (if j % 2 == 0 then Invocation(e) else Yield)
  {
    trace := [];
    var k := 0;
    while k < rounds
      invariant 0 <= k <= rounds && |trace| == 2 * k
      invariant forall j :: 0 <= j < |trace| ==> trace[j] == (if j % 2 == 0 then Invocation(e) else Yield)
    {
      trace := trace + [Invocation(e), Yield];
      k := k + 1;
    }
  }

  /** The kernel's globals: `tasks[]`, `numt` and `curr`. */
  class Scheduler {
    const tasks: array<TaskEntry>
    /** `numt`: the number of registered tasks until `begin`, the highest
        index afterwards. */
    var numt: uint8
    /** `curr`: the index of the running task. */
    var curr: uint8
    /** `_JBLEN`, the size of a jump buffer on the target. */
    const jbLen: uint16

    /** The table has its fixed size and the running index never passes
        `numt`. */
    predicate Valid() reads this { tasks.Length == TaskCount && curr <= numt }

    /** The registered entries, `tasks[0 .. numt)`. */
    function Registered(): seq<TaskEntry>
      reads this, tasks
      requires Valid() && numt as nat <= TaskCount
    {
      tasks[..numt]
    }

    /** The zero-initialised globals. */
    constructor (jbLen: uint16)
      ensures Valid() && fresh(tasks) && this.jbLen == jbLen
      ensures numt == 0 && curr == 0 && Registered() == []
    {
      this.jbLen := jbLen;
      tasks := new TaskEntry[TaskCount](_ => TaskEntry(0, 0, 0));
      numt, curr := 0, 0;
    }

    /** `addTask(loop, stackSize, priority)`: appends an entry with a null
        argument and `stackSize + _JBLEN` as stack size; the priority is
        ignored. There is no capacity check in the source, so the slot must
        exist. */
    method AddTask(loop: FuncRef, stackSize: uint16, priority: uint8)
      requires Valid() && numt as nat < TaskCount
      modifies this, tasks
      ensures Valid() && numt == old(numt) + 1 && curr == old(curr)
      ensures Registered() == old(Registered()) + [TaskEntry(loop, 0, Add16(stackSize, jbLen))]
      ensures tasks[numt..] == old(tasks[..])[numt..]
    {
      var n := numt;
      tasks[n] := TaskEntry(loop, 0, Add16(stackSize, jbLen));
      numt := n + 1;
    }

    /** `addTask(loop, arg, stackSize, priority)`: the plain registration,
        then `arg` stored in the entry just added. */
    method AddTaskArg(loop: FuncRef, arg: ArgRef, stackSize: uint16, priority: uint8)
      requires Valid() && numt as nat < TaskCount
      modifies this, tasks
      ensures Valid() && numt == old(numt) + 1 && curr == old(curr)
      ensures Registered() == old(Registered()) + [TaskEntry(loop, arg, Add16(stackSize, jbLen))]
      ensures tasks[numt..] == old(tasks[..])[numt..]
    {
      AddTask(loop, stackSize, priority);
      tasks[numt - 1] := tasks[numt - 1].(arg := arg);
      assert tasks[..numt] == old(Registered()) + [TaskEntry(loop, arg, Add16(stackSize, jbLen))];
    }

    /** The bookkeeping after the set-up loop of `begin`: `numt` becomes
        the highest index (255 when no task was registered, by 8-bit
        wrap-around) and task 0 runs first. */
    method Begin()
      requires Valid()
      modifies this
      ensures Valid()
      ensures old(numt) > 0 ==> numt == old(numt) - 1
      ensures old(numt) == 0 ==> numt == 255
      ensures curr == 0
    {
      numt := (numt as int + 255) % 0x100;
      curr := 0;
    }

    /** One context switch, `v()`. */
    method Switch()
      requires Valid()
      modifies this
      ensures Valid()
      ensures curr == Rotate(old(curr), numt) && numt == old(numt)
      ensures old(curr) <= numt ==> curr <= numt
    {
      if curr == 0 {
        curr := numt;
      } else {
        curr := curr - 1;
      }
    }

    /** `getTaskID()`: the running task's index, which the class
        invariant keeps within `[0, numt]`. */
    function GetTaskId(): (r: TaskId)
      reads this
      requires Valid()
      ensures r == curr && r <= numt
    {
      curr
    }

    /** `delay(ms)`: read `calledTime`, then yield while the wrapping
        elapsed time is at most `ms`. `clock` holds the successive
        `millis()` readings; the result counts the readings used. */
    static method Delay(ms: uint32, clock: seq<uint32>) returns (r: Call<nat>)
      ensures r.Returned? ==> DelayEnds(ms, clock, r.value)
      ensures r.Pending? ==> DelayWaits(ms, clock)
    {
      if clock == [] {
        return Pending;
      }
      var calledTime := clock[0];
      var i := 1;
      while i < |clock| && Elapsed(clock[i], calledTime) <= ms
        invariant 1 <= i <= |clock|
        invariant forall j :: 1 <= j < i ==> Elapsed(clock[j], calledTime) <= ms
        decreases |clock| - i
      {
        i := i + 1;
      }
      if i == |clock| {
        r := Pending;
      } else {
        r := Returned(i + 1);
      }
    }

    /** `delayMicroseconds(us)`: the same loop over `micros()` readings. */
    static method DelayMicroseconds(us: uint32, clock: seq<uint32>) returns (r: Call<nat>)
      ensures r.Returned? ==> DelayEnds(us, clock, r.value)
      ensures r.Pending? ==> DelayWaits(us, clock)
    {
      r := Delay(us, clock);
    }

    /** `delayUntill(t)`: `delay(t - millis())`, the difference taken in
        unsigned 32-bit arithmetic. */
    static method DelayUntil(t: uint32, clock: seq<uint32>) returns (r: Call<nat>)
      ensures clock == [] ==> r.Pending?
      ensures r.Returned? ==> 1 <= r.value && DelayEnds(Sub32(t, clock[0]), clock[1..], r.value - 1)
      ensures r.Pending? && clock != [] ==> DelayWaits(Sub32(t, clock[0]), clock[1..])
    {
      if clock == [] {
        return Pending;
      }
      var d := Delay(Sub32(t, clock[0]), clock[1..]);
      r := if d.Returned? then Returned(d.value + 1) else Pending;
    }

    /** `delayUntillMicroseconds(t)`: the same over `micros()` readings. */
    static method DelayUntilMicroseconds(t: uint32, clock: seq<uint32>) returns (r: Call<nat>)
      ensures clock == [] ==> r.Pending?
      ensures r.Returned? ==> 1 <= r.value && DelayEnds(Sub32(t, clock[0]), clock[1..], r.value - 1)
      ensures r.Pending? && clock != [] ==> DelayWaits(Sub32(t, clock[0]), clock[1..])
    {
      if clock == [] {
        return Pending;
      }
      var d := DelayMicroseconds(Sub32(t, clock[0]), clock[1..]);
      r := if d.Returned? then Returned(d.value + 1) else Pending;
    }
  }
}
