/** Machine-level vocabulary shared by every revision of the kernel:
    fixed-width unsigned integers with explicit wrap-around, task
    identities, the two fields of an ownership-tracked lock, and the
    environment that a polling loop observes while it runs. */
module Machine {

  type uint8 = x: int | 0 <= x < 0x100
  type uint16 = x: int | 0 <= x < 0x1_0000
  type uint32 = x: int | 0 <= x < 0x1_0000_0000
  type uint64 = x: int | 0 <= x < 0x1_0000_0000_0000_0000
  type int64 = x: int | -0x8000_0000_0000_0000 <= x < 0x8000_0000_0000_0000

  const Word32: int := 0x1_0000_0000
  const Word64: int := 0x1_0000_0000_0000_0000

  /** A task identity is an `unsigned char` / `uint8_t`. */
  type TaskId = uint8

  /** The owner value of a lock nobody holds (`0xFF`, `UINT8_MAX`). */
  const NoTask: TaskId := 0xFF

  /** Unsigned 16-bit addition (`unsigned` on 8-bit AVR boards). */
  function Add16(a: uint16, b: uint16): uint16 { (a + b) % 0x1_0000 }

  /** Unsigned 32-bit addition and subtraction (`unsigned long`, `uint32_t`). */
  function Add32(a: uint32, b: uint32): uint32 { (a + b) % Word32 }
  function Sub32(a: uint32, b: uint32): uint32 { (a - b) % Word32 }

  /** Unsigned 64-bit addition (`unsigned long long += unsigned long`). */
  function Add64(a: uint64, b: uint32): uint64 { (a + b) % Word64 }

  /** The two fields of every ownership-tracked lock: `_lock` (true when the
      lock can be taken) and `_locking_task`. */
  datatype LockState = LockState(free: bool, owner: TaskId)

  /** One operation another task performed on a lock while the modelled task
      was yielding: an attempt to take it (the critical section of
      `lock`/`lockImmediate`) or a call of `unlock`. */
  datatype LockOp = Acquire(task: TaskId) | Release(task: TaskId)
  {
    function Task(): TaskId { match this case Acquire(t) => t case Release(t) => t }
  }

  /** What a polling loop observes: each call of `millis()` consumes the next
      clock reading, each `OS.yield()` consumes the next run, the list of operations
      that other tasks performed on the lock in the meantime. */
  datatype Env = Env(clock: seq<uint32>, runs: seq<seq<LockOp>>)
  {
    /** `rest` is what remains of this environment after consuming a prefix. */
    predicate Consumed(rest: Env)
    {
      |rest.clock| <= |clock| && rest.clock == clock[|clock| - |rest.clock|..] &&
      |rest.runs| <= |runs| && rest.runs == runs[|runs| - |rest.runs|..]
    }

    function Tick(): Env requires |clock| > 0 { Env(clock[1..], runs) }
    function Step(): Env requires |runs| > 0 { Env(clock, runs[1..]) }
  }

  /** No operation in the environment comes from `caller` itself, and none
      uses the reserved identity `NoTask`. */
  predicate ByOthers(env: Env, caller: TaskId)
  {
    forall k, j :: 0 <= k < |env.runs| && 0 <= j < |env.runs[k]| ==>
      env.runs[k][j].Task() != caller && env.runs[k][j].Task() != NoTask
  }

  /** Every operation in the environment uses a real task identity. */
  predicate RealTasks(env: Env)
  {
    forall k, j :: 0 <= k < |env.runs| && 0 <= j < |env.runs[k]| ==>
      env.runs[k][j].Task() != NoTask
  }

  /** The outcome of a call that may block: it returned a value, or it was
      still waiting when the modelled environment ran out. */
  datatype Call<+R> = Returned(value: R) | Pending

  lemma ConsumedTrans(a: Env, b: Env, c: Env)
    requires a.Consumed(b) && b.Consumed(c)
    ensures a.Consumed(c)
  {
  }

  /** What remains after one reading and one yield, and then some more,
      is still a suffix, one reading shorter on the clock side. */
  lemma ConsumedTickStep(e: Env, rest: Env)
    requires |e.clock| > 0 && |e.runs| > 0 && e.Tick().Step().Consumed(rest)
    ensures e.Consumed(rest)
    ensures var used := |e.Tick().Step().clock| - |rest.clock|;
      |e.clock| - |rest.clock| == used + 1 &&
      (1 <= used ==> e.clock[used] == e.Tick().Step().clock[used - 1])
  {
    ConsumedTick(e);
    ConsumedStep(e.Tick());
    ConsumedTrans(e, e.Tick(), e.Tick().Step());
    ConsumedTrans(e, e.Tick().Step(), rest);
  }

  /** The same for one yield followed by one reading. */
  lemma ConsumedStepTick(e: Env, rest: Env)
    requires |e.runs| > 0 && |e.clock| > 0 && e.Step().Tick().Consumed(rest)
    ensures e.Consumed(rest)
    ensures var used := |e.Step().Tick().clock| - |rest.clock|;
      |e.clock| - |rest.clock| == used + 1 && |rest.runs| < |e.runs| &&
      (1 <= used ==> e.clock[used] == e.Step().Tick().clock[used - 1])
  {
    ConsumedStep(e);
    ConsumedTick(e.Step());
    ConsumedTrans(e, e.Step(), e.Step().Tick());
    ConsumedTrans(e, e.Step().Tick(), rest);
  }

  lemma ConsumedTick(e: Env)
    requires |e.clock| > 0
    ensures e.Consumed(e.Tick())
  {
  }

  lemma ConsumedStep(e: Env)
    requires |e.runs| > 0
    ensures e.Consumed(e.Step())
  {
  }

  /** What remains of an environment of other tasks' operations is still
      one. */
  lemma ByOthersConsumed(env: Env, rest: Env, caller: TaskId)
    requires ByOthers(env, caller) && env.Consumed(rest)
    ensures ByOthers(rest, caller)
  {
    var off := |env.runs| - |rest.runs|;
    forall k, j | 0 <= k < |rest.runs| && 0 <= j < |rest.runs[k]|
      ensures rest.runs[k][j].Task() != caller && rest.runs[k][j].Task() != NoTask
    {
      assert rest.runs[k] == env.runs[off + k];
    }
  }

  /** What remains of an environment of real task identities is still
      one. */
  lemma RealTasksConsumed(env: Env, rest: Env)
    requires RealTasks(env) && env.Consumed(rest)
    ensures RealTasks(rest)
  {
    var off := |env.runs| - |rest.runs|;
    forall k, j | 0 <= k < |rest.runs| && 0 <= j < |rest.runs[k]|
      ensures rest.runs[k][j].Task() != NoTask
    {
      assert rest.runs[k] == env.runs[off + k];
    }
  }

  lemma ByOthersStep(env: Env, caller: TaskId)
    requires ByOthers(env, caller) && |env.runs| > 0
    ensures ByOthers(env.Step(), caller)
  {
    var s := env.Step();
    forall k, j | 0 <= k < |s.runs| && 0 <= j < |s.runs[k]|
      ensures s.runs[k][j].Task() != caller && s.runs[k][j].Task() != NoTask
    {
      assert s.runs[k] == env.runs[k + 1];
    }
  }
}
