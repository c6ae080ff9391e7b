# ArdRTOS in Dafny

ArdRTOS is a small real-time operating system for Arduino boards. Several
revisions of it live side by side in its repository:

- a cooperative kernel (`src/scheduler.cpp`) that runs tasks round-robin and switches on `OS.yield()`;
- an older preemptive kernel (`src/sceduler.cpp`) whose timer interrupt picks the next task that is awake;
- ownership-tracked locks in three revisions, and an ownerless token semaphore;
- thread-safe template queues and stacks in two revisions, a byte-buffer queue, and the compile-time choice of their index type;
- a stepper-motor step counter;
- the helpers of a Fibonacci demonstration program.

The revisions disagree with each other, so each one is its own module here.

| module | file | models |
|---|---|---|
| `Machine` | machine.dfy | fixed-width unsigned arithmetic, task identities (`0xFF` is "nobody"), the two lock fields, the environment |
| `Polling` | polling.dfy | the waiting loops every lock revision runs, over the revision's own transition function |
| `Signaling` | signaling.dfy | `Semaphore` and `LockGuard` of src/datatypes/Signaling.h |
| `LegacySignaling` | legacy_signaling.dfy | `Semaphore` and `LockGuard` of include/datatypes/Signaling.h |
| `MutexLock` | mutex.dfy | `Mutex` of src/Mutex.cpp and `LockGuard` of include/datatypes/Mutex.h |
| `TokenSemaphore` | token.dfy | the token `Semaphore` of src/semaphore.cpp |
| `Kernel` | kernel.dfy | task table, switch, `begin` bookkeeping, delays and `getTaskID` of src/scheduler.cpp |
| `Ring` | ring.dfy | index arithmetic in a ring of slots |
| `IsrKernel` | isr_kernel.dfy | the task-selection scan, `os_delay` and the standby task of src/sceduler.cpp |
| `SyncQueue` | sync_queue.dfy | `Queue<T, i, L>` of src/datatypes/Queue.h |
| `LegacyQueue` | legacy_queue.dfy | `Queue<T, i>` of include/datatypes/Queue.h |
| `ByteQueue` | byte_queue.dfy | the byte-buffer `Queue` of src/queue.cpp |
| `IndexType` | index_type.dfy | `__IT_TYPE__` of src/datatypes/init.h and the older selectors |
| `SyncStack` | sync_stack.dfy | `Stack<T, i, L>` of src/datatypes/Stack.h |
| `LegacyStack` | legacy_stack.dfy | `Stack<T, i>` of include/datatypes/Stack.h |
| `Steppers` | stepper.dfy | `Stepper` of src/steppers.h |
| `FibDemo` | fib.dfy | `isDigit`, `fib` and the digit accumulation of `SerialInput` in test/3_fib.cpp |

**Clocks and other tasks.** A call that waits takes an environment
`Env(clock, runs)`.

- Each `millis()` or `micros()` call consumes the next clock reading.
- Each `OS.yield()` consumes the next run: the lock operations the other tasks performed while this task was switched out.
- Each lock revision applies those operations with its own transition function.
- A call that uses up its environment before it returns reports `Pending`. This is how "never returns" is stated.
- Every such call also returns what is left of the environment.

The critical sections between `noInterrupts()` and `interrupts()` are atomic
steps. Each container, lock, table or counter is a class whose methods
update its fields. Each method is proved equal to a function of the old
state, and the lemmas about that function state what the source promises.

**Word sizes.** `unsigned long` is 32 bits, and `unsigned long long` 64 bits, in every module. The width of `int` and `unsigned` depends on the board, and the modules choose as follows:

- `Kernel` (the `unsigned` stack size of `addTask`) and `ByteQueue` (the `int` product in its constructor) take them as 16 bits, as on AVR. The cooperative kernel's `setjmp`/`alloca` scheme targets that platform.
- `IndexType` takes the template's `unsigned int` capacity as 32 bits, as on the SAMD and STM32 ports. On AVR, no capacity exceeds 65535, and `IndexType.OlderSelectorsFitSixteenBit` covers that case.
- The container modules (`SyncQueue`, `LegacyQueue`, `SyncStack`, `LegacyStack`) use unbounded capacities and indices. See "## Left out".

**What the proofs expose.** The model follows the code as written.
Proofs about it show the following behaviour of the source:

- The newer `Semaphore` has no re-entry check. A task that locks it twice never returns. This deadlocks:
  - the timed `dequeue` of src/datatypes/Queue.h;
  - the timed `pop` of src/datatypes/Stack.h.
- The older `Semaphore` and the `Mutex` let the owner re-lock, and they unlock for anyone. So an inner guard frees an outer one, and another task's `unlock` frees a lock that a waiting task holds.
- The timed `lock` of `Mutex` can report false although its last yield freed the lock.
- In the template queues, `_count` is never written. So `isEmpty()` is always true and `isFull()` always false.
- `next()` returns `i` on wrap, so the `i`-th write goes past the array.
- Several waiting loops compare against the deadline the wrong way:
  - the timed `push` of both stack revisions succeeds only after its deadline has passed;
  - the timed `enqueue` of src/datatypes/Queue.h can return false while still holding the lock, or write without the lock.
- The byte queue advances its offsets by the item size but wraps them at the number of items. With items wider than one byte, it overwrites queued items.
- Several 32-bit deadlines wrap.

## Model

| member | source | states |
|---|---|---|
| `Polling.Wait` | src/datatypes/Signaling.h:67-73 | the yield loop of `lock()` never reads the clock |
| `Polling.RunKeepsInv` | src/datatypes/Signaling.h:56 | other tasks' operations keep `_lock == (_locking_task == 0xFF)` whenever their transition does |
| `Polling.WaitFacts` | src/datatypes/Signaling.h:67-73 | the wait ends exactly on a lock seen free, keeps the invariant, consumes a prefix of the environment, and is still waiting only once every run is used |
| `Polling.PollWaitClock` | src/datatypes/Signaling.h:94-106 | the clock-before-yield loop returns false only right after a reading strictly beyond the deadline |
| `Polling.PollWaitState` | src/datatypes/Signaling.h:94-106 | that loop keeps the invariant, reports true exactly on a free lock and false only with the lock taken |
| `Polling.PollWaitFacts` | src/datatypes/Signaling.h:94-106 | both halves together |
| `Polling.YieldPollClock` | src/Mutex.cpp:43-52 | the yield-before-clock loop returns false only after at least one yield and right after a reading strictly beyond the deadline |
| `Polling.YieldPollState` | src/Mutex.cpp:43-52 | that loop keeps the invariant and reports true only on a free lock |
| `Polling.YieldPollFacts` | src/Mutex.cpp:43-52 | both halves together, even when the last yield freed the lock |
| `Signaling.EffectKeepsInv` | src/datatypes/Signaling.h:123-154 | another task's `lockImmediate` or `unlock` keeps the lock invariant |
| `Signaling.LockAllFacts` | src/datatypes/Signaling.h:62-80 | `lock()` returns only with the caller owning the lock; while still waiting, the lock is taken |
| `Signaling.LockForClock` | src/datatypes/Signaling.h:89-106 | `lock(timeout)` reports false only after a reading strictly beyond the 64-bit sum of `timeout` and the first reading |
| `Signaling.LockForState` | src/datatypes/Signaling.h:94-115 | `lock(timeout)` true leaves the caller as owner; false leaves the lock taken |
| `Signaling.LockForFacts` | src/datatypes/Signaling.h:89-115 | true only with the caller owning the lock (the converse fails for an owner that re-locks, `Signaling.ReLockForNeverAcquires`), false only past the deadline with the lock taken, and the invariant kept |
| `Signaling.LockForDeadlineWraps` | src/datatypes/Signaling.h:91 | with `timeout` near 2^64 the deadline wraps and a taken lock gives up at the next reading |
| `Signaling.RunKeepsOwner` | src/datatypes/Signaling.h:142-154 | operations of other tasks never change a lock held by `a` |
| `Signaling.RunNeverGrants` | src/datatypes/Signaling.h:123-154 | other tasks' `lockImmediate` and `unlock` never make the caller the owner |
| `Signaling.ReLockNeverReturns` | src/datatypes/Signaling.h:62-73 | `lock()` by the owner waits for itself and never returns |
| `Signaling.ReLockForNeverAcquires` | src/datatypes/Signaling.h:94-106 | `lock(timeout)` by the owner never reports success |
| `Signaling.TryLockThenUnlock` | src/datatypes/Signaling.h:123-154 | `lockImmediate` then `unlock` by the same task restores a free lock; on a taken lock `lockImmediate` fails and changes nothing |
| `Signaling.Semaphore.constructor` | src/datatypes/Signaling.h:56 | a new lock is free with owner `0xFF` |
| `Signaling.Semaphore.Interleave` | src/datatypes/Signaling.h:68 | one yield applies the other tasks' operations |
| `Signaling.Semaphore.Lock` | src/datatypes/Signaling.h:62-80 | the loop makes the new state exactly what `LockAll` gives for the old one |
| `Signaling.Semaphore.LockTimeout` | src/datatypes/Signaling.h:89-115 | the loop makes the new state and result exactly what `LockFor` gives |
| `Signaling.Semaphore.LockImmediate` | src/datatypes/Signaling.h:123-136 | takes a free lock for the caller and reports true; otherwise false with no change |
| `Signaling.Semaphore.Unlock` | src/datatypes/Signaling.h:142-154 | only the owner frees the lock and gets true; the failing path returns with interrupts still masked |
| `Signaling.Semaphore.Available` | src/datatypes/Signaling.h:163 | true exactly when nobody owns the lock |
| `Signaling.Semaphore.GetOwner` | src/datatypes/Signaling.h:170 | `0xFF` exactly when the lock is free |
| `Signaling.LockGuard.constructor` | src/datatypes/Signaling.h:218-221 | the guard calls `lock()` on the given lock and remembers it |
| `Signaling.LockGuard.Destroy` | src/datatypes/Signaling.h:228 | the destructor calls `unlock()` on the same lock |
| `LegacySignaling.EffectKeepsInv` | include/datatypes/Signaling.h:123-152 | other tasks' operations keep the lock invariant |
| `LegacySignaling.LockAllFacts` | include/datatypes/Signaling.h:50-72 | `lock()` returns only with the caller owning the lock; while waiting, the lock is taken |
| `LegacySignaling.LockForClock` | include/datatypes/Signaling.h:81-106 | false only after a reading strictly beyond the 64-bit deadline |
| `LegacySignaling.LockForState` | include/datatypes/Signaling.h:87-115 | true leaves the caller as owner; false leaves the lock taken |
| `LegacySignaling.LockForFacts` | include/datatypes/Signaling.h:81-115 | true only with the caller owning the lock, false only past the deadline with the lock taken |
| `LegacySignaling.LockForOwnsIff` | include/datatypes/Signaling.h:81-115 | with no other task acting under the caller's identity, a finished `lock(timeout)` is true if and only if the caller owns the lock afterwards |
| `LegacySignaling.RunNeverGrants` | include/datatypes/Signaling.h:123-152 | other tasks' `lockImmediate` and `unlock` never make the caller the owner |
| `LegacySignaling.PollWaitNeverGrants` | include/datatypes/Signaling.h:96-107 | the polling loop never makes the caller the owner |
| `LegacySignaling.ReLockReturns` | include/datatypes/Signaling.h:54-56 | the owner's `lock()`, `lock(timeout)` and `lockImmediate` return at once with no change |
| `LegacySignaling.OtherTaskTakesOver` | include/datatypes/Signaling.h:147-152 | another task's `unlock` and `lock` take over a lock held by `a` |
| `LegacySignaling.NestedGuardFreesOuter` | include/datatypes/Signaling.h:209-219 | a nested guard of the same task returns at once and its destructor frees the outer hold |
| `LegacySignaling.Semaphore.constructor` | include/datatypes/Signaling.h:44 | a new lock is free with owner `0xFF` |
| `LegacySignaling.Semaphore.Interleave` | include/datatypes/Signaling.h:60 | one yield applies the other tasks' operations |
| `LegacySignaling.Semaphore.Lock` | include/datatypes/Signaling.h:50-72 | the new state is what `LockAll` gives; interrupts stay masked exactly on the owner's early return |
| `LegacySignaling.Semaphore.LockTimeout` | include/datatypes/Signaling.h:81-115 | the new state and result are what `LockFor` gives |
| `LegacySignaling.Semaphore.LockImmediate` | include/datatypes/Signaling.h:123-141 | true for the owner with no change or on a free lock, which it takes; otherwise false with no change |
| `LegacySignaling.Semaphore.Unlock` | include/datatypes/Signaling.h:147-152 | frees the lock for any caller and keeps the invariant |
| `LegacySignaling.Semaphore.Available` | include/datatypes/Signaling.h:161 | true exactly when nobody owns the lock |
| `LegacySignaling.LockGuard.constructor` | include/datatypes/Signaling.h:209-212 | the guard calls `lock()` and remembers the lock |
| `LegacySignaling.LockGuard.Destroy` | include/datatypes/Signaling.h:219 | the destructor leaves the lock free and unowned |
| `MutexLock.LockForClock` | src/Mutex.cpp:31-52 | false only after at least one yield and a reading strictly beyond the 64-bit deadline |
| `MutexLock.LockForState` | src/Mutex.cpp:37-56 | true leaves the caller as owner |
| `MutexLock.LockForFacts` | src/Mutex.cpp:31-61 | true only with the caller owning the mutex; false only after a yield and a reading strictly beyond the 64-bit deadline; the invariant kept |
| `MutexLock.YieldPollNeverGrants` | src/Mutex.cpp:43-52 | the yield-first polling loop never makes the caller the owner |
| `MutexLock.LockForOwnsIff` | src/Mutex.cpp:31-61 | with no other task acting under the caller's identity, a finished `lock(timeout)` is true if and only if the caller owns the mutex afterwards; a timeout never leaves the caller as owner |
| `MutexLock.TimesOutOnFreedLock` | src/Mutex.cpp:43-49 | the holder unlocks during the one yield, the next reading is late, and `lock(timeout)` reports false on a free mutex |
| `MutexLock.Mutex.constructor` | src/Mutex.cpp:6 | a new mutex is free with owner `UINT8_MAX` |
| `MutexLock.Mutex.Interleave` | src/Mutex.cpp:17 | one yield applies the other tasks' operations |
| `MutexLock.Mutex.Lock` | src/Mutex.cpp:8-29 | owner returns at once with interrupts masked; anyone else waits for a free mutex and takes it |
| `MutexLock.Mutex.LockTimeout` | src/Mutex.cpp:31-61 | the new state and result are what `MutexLock.LockFor` gives |
| `MutexLock.Mutex.LockImmediate` | src/Mutex.cpp:63-80 | true for the owner or on a free mutex, which it takes; otherwise false with no change |
| `MutexLock.Mutex.Unlock` | src/Mutex.cpp:82-85 | frees the mutex for any caller |
| `MutexLock.Mutex.Available` | include/datatypes/Mutex.h:62 | true exactly when nobody owns the mutex |
| `MutexLock.LockGuard.constructor` | include/datatypes/Mutex.h:82-85 | the guard calls `lock()` on the mutex and remembers it |
| `MutexLock.LockGuard.Destroy` | include/datatypes/Mutex.h:92 | the destructor frees the mutex |
| `TokenSemaphore.PollClock` | src/semaphore.cpp:19-23 | the wait reports false only right after a reading strictly beyond `time` |
| `TokenSemaphore.PollToken` | src/semaphore.cpp:19-23 | the wait reports true exactly on a free token |
| `TokenSemaphore.PollFacts` | src/semaphore.cpp:19-23 | both halves together, false only with the token taken |
| `TokenSemaphore.GetFacts` | src/semaphore.cpp:17-25 | `get` takes the token when it reports true, and reports false only after a reading strictly beyond the 32-bit `millis() + timeout`, the token still taken |
| `TokenSemaphore.NoTimeoutAtTop` | src/semaphore.cpp:18-20 | with `time == 0xFFFFFFFF` no reading exceeds it and `get` never times out |
| `TokenSemaphore.WrappedDeadlineGivesUp` | src/semaphore.cpp:18-21 | a deadline that wraps past 2^32 makes `get` fail at the next reading |
| `TokenSemaphore.Token.constructor` | src/semaphore.cpp:15 | the token starts free |
| `TokenSemaphore.Token.Interleave` | src/semaphore.cpp:22 | one yield applies the other tasks' `get`s and `release`s |
| `TokenSemaphore.Token.Get` | src/semaphore.cpp:17-25 | the loop makes the token and result exactly what `GetFor` gives |
| `TokenSemaphore.Token.Release` | src/semaphore.cpp:26-28 | the token becomes free whatever the argument |
| `Kernel.RotationsBound` | src/scheduler.cpp:90-94 | switches keep `curr` within `[0, numt]` |
| `Kernel.RotationsClosedForm` | src/scheduler.cpp:90-94 | within one round, `curr` counts down to 0 and then down from `numt` |
| `Kernel.RotationsAdd` | src/scheduler.cpp:90-94 | `a + b` switches are `a` switches followed by `b` |
| `Kernel.RoundVisitsAll` | src/scheduler.cpp:90-94 | any `numt + 1` consecutive switches visit every index exactly once and come back |
| `Kernel.ElapsedWrapTolerant` | src/scheduler.cpp:230 | `millis() - calledTime` in 32 bits is the real elapsed time below 2^32, across wraps |
| `Kernel.DelayForeverAtMax` | src/scheduler.cpp:228-233 | `delay(0xFFFFFFFF)` never returns |
| `Kernel.PastTargetWaitsNearlyWrap` | src/scheduler.cpp:228-244 | `delayUntill` on a target `d` before its reading hands `delay` the argument `2^32 - d`: the wait ends only at a reading more than `2^32 - d` after its start and goes on while no reading is that late |
| `Kernel.TaskLoop` | src/scheduler.cpp:148-161 | a task function is invoked, with its argument when that is not null, and re-invoked after every yield |
| `Kernel.Scheduler.constructor` | src/scheduler.cpp:63-71 | an empty table with `numt == 0` and `curr == 0` |
| `Kernel.Scheduler.AddTask` | src/scheduler.cpp:120-131 | appends an entry with a null argument and `stackSize + _JBLEN`, increments `numt` and touches no other slot |
| `Kernel.Scheduler.AddTaskArg` | src/scheduler.cpp:133-136 | the plain registration with `arg` stored in the newest slot only |
| `Kernel.Scheduler.Begin` | src/scheduler.cpp:166-167 | `numt` becomes the highest index, 255 with no tasks, and `curr` becomes 0 |
| `Kernel.Scheduler.Switch` | src/scheduler.cpp:90-94 | from 0 to `numt`, otherwise one down, staying within `[0, numt]` and so keeping the class invariant |
| `Kernel.Scheduler.GetTaskId` | src/scheduler.cpp:250-253 | the running task's index, which lies in `[0, numt]` because the class invariant `Valid()` (kept by the constructor, `addTask`, `begin` and `v()`) bounds `curr` by `numt` |
| `Kernel.Scheduler.Delay` | src/scheduler.cpp:228-233 | returns exactly at the first reading whose wrapping elapsed time exceeds `ms`, and is still waiting if no such reading comes |
| `Kernel.Scheduler.DelayMicroseconds` | src/scheduler.cpp:235-240 | the same over `micros()` readings |
| `Kernel.Scheduler.DelayUntil` | src/scheduler.cpp:242-244 | `delay(t - millis())` with the 32-bit difference |
| `Kernel.Scheduler.DelayUntilMicroseconds` | src/scheduler.cpp:246-248 | the same over `micros()` readings |
| `Ring.SuccIsMod` | src/sceduler.cpp:49 | the ring successor is `(c + 1) % n` |
| `Ring.Step` | src/sceduler.cpp:49 | repeated successors stay below `n` |
| `Ring.StepClosedForm` | src/sceduler.cpp:49 | `k <= n` steps from `c` are `c + k`, less `n` once past the end |
| `Ring.StepCovers` | src/sceduler.cpp:48-52 | every slot is reached in one to `n` steps, and `n` steps return to `c` |
| `Ring.StepDistinct` | src/sceduler.cpp:48-52 | within one cycle the steps land on different slots |
| `IsrKernel.ScanOutcome` | src/sceduler.cpp:48-52 | the scan stops on the first awake task after the current one, examining the current one last, or spins back to it when none is awake |
| `IsrKernel.OverflowedDeadlineEligible` | src/sceduler.cpp:95 | when `millis() + ms` wraps, the sleeping task is awake at once |
| `IsrKernel.DeadlineWithoutOverflow` | src/sceduler.cpp:52 | without wrap, the task is awake exactly from `now + ms` on |
| `IsrKernel.IsrScheduler.constructor` | src/sceduler.cpp:15-21 | a table of the fixed size with the given wake-up times and current task |
| `IsrKernel.IsrScheduler.Switch` | src/sceduler.cpp:37-52 | one reading `m`; the new index is below `num_tasks`, every task skipped is asleep, and the chosen one is awake if any is |
| `IsrKernel.IsrScheduler.OsDelay` | src/sceduler.cpp:90-98 | only the current task's `_validTime` changes, to `millis() + ms` in 32 bits, then the scan runs |
| `IsrKernel.IsrScheduler.StandbyYield` | src/sceduler.cpp:67-70 | the standby task changes no `_validTime`, and while awake the scan always finds a task |
| `SyncQueue.NextFacts` | src/datatypes/Queue.h:95-102 | `next` keeps `n` in `[0, i)` and returns the old value, except on wrap, where it returns `i` |
| `SyncQueue.PushFacts` | src/datatypes/Queue.h:112 | a write changes no counter but `_front`, and stores at `_front` except on the last slot, where it overruns |
| `SyncQueue.PushAll` | src/datatypes/Queue.h:112 | up to `i - 1` writes from `_front` store the items in order |
| `SyncQueue.FillOverruns` | src/datatypes/Queue.h:97-100 | the `i`-th write into an empty queue goes past the array and is lost |
| `SyncQueue.FillIntended` | src/datatypes/Queue.h:30-35 | with `next` as documented, `i` writes store all items in order and `_front` returns to 0 |
| `SyncQueue.TryLockLoopClock` | src/datatypes/Queue.h:119-121 | the lock loop gives up without the lock only right after a reading not past the deadline |
| `SyncQueue.TryLockLoopState` | src/datatypes/Queue.h:119-121 | the loop reports true only with the caller holding the lock, and false only with the lock held; the invariant kept |
| `SyncQueue.TryLockLoopTaken` | src/datatypes/Queue.h:119-121 | from any lock, a true result leaves the caller as owner |
| `SyncQueue.TryLockLoopNeverGrants` | src/datatypes/Queue.h:119-121 | starting without the lock, the loop leaves the caller the owner only when it reports true |
| `SyncQueue.TryLockLoopOwnsIff` | src/datatypes/Queue.h:119-121 | for a caller without the lock, a finished loop is true if and only if the caller holds the lock, and on false another task holds it |
| `SyncQueue.TryLockLoopFailsOwner` | src/datatypes/Signaling.h:123-135 | `lockImmediate` has no re-entry check, so a caller already holding the lock gets false from the loop and keeps the lock |
| `SyncQueue.EnqueueForFacts` | src/datatypes/Queue.h:117-142 | timed `enqueue` writes only when it reports true, right after a reading that is not past the deadline; any other result leaves the queue unchanged |
| `SyncQueue.EnqueueForLeaksLock` | src/datatypes/Queue.h:134-136 | a false return can keep the lock held by the caller |
| `SyncQueue.EnqueueForWritesUnlocked` | src/datatypes/Queue.h:119-140 | with another task holding the lock, timed `enqueue` writes without it and its `unlock` fails |
| `SyncQueue.DequeueForDeadlocks` | src/datatypes/Queue.h:153-171 | from any lock state, once the lock loop took the lock, at once or after yields, the guard's `lock()` waits for the caller and timed `dequeue` never returns; on a lock free at the call that always happens |
| `SyncQueue.Queue.constructor` | src/datatypes/Queue.h:105 | all three counters 0 and a free lock |
| `SyncQueue.Queue.Size` | src/datatypes/Queue.h:80 | always 0 |
| `SyncQueue.Queue.IsEmpty` | src/datatypes/Queue.h:81 | always true |
| `SyncQueue.Queue.IsFull` | src/datatypes/Queue.h:82 | always false |
| `SyncQueue.Queue.Write` | src/datatypes/Queue.h:112 | the array and indices become `Push` of the old ones |
| `SyncQueue.Queue.Enqueue` | src/datatypes/Queue.h:108-114 | once the guard's `lock()` returns, the item is written, the result is true and the lock is released |
| `SyncQueue.Queue.Dequeue` | src/datatypes/Queue.h:145-150 | returns `_data[_back]` and moves no index |
| `SyncQueue.Queue.Peek` | src/datatypes/Queue.h:78 | returns `_data[_back]` and moves no index |
| `SyncQueue.Queue.LockLoop` | src/datatypes/Queue.h:119-121 | the loop makes the lock and result exactly what `TryLockLoop` gives |
| `SyncQueue.Queue.EnqueueTimeout` | src/datatypes/Queue.h:117-142 | the new queue, lock and result are what `EnqueueFor` gives |
| `SyncQueue.Queue.DequeueTimeout` | src/datatypes/Queue.h:153-171 | the lock and result are what `DequeueFor` gives, the queue unchanged |
| `LegacyQueue.EnqueueForFacts` | include/datatypes/Queue.h:124-130 | timed `enqueue` waits only for the mutex, always stores the item and reports true, and leaves the mutex free |
| `LegacyQueue.EnqueueTimeoutIgnored` | include/datatypes/Queue.h:124-130 | the timeout makes no difference |
| `LegacyQueue.DequeueForFacts` | include/datatypes/Queue.h:141-149 | timed `dequeue` waits only for the mutex and returns `_data[_back]` with the mutex free |
| `LegacyQueue.EnqueueByOwnerFreesMutex` | include/datatypes/Queue.h:115-121 | an owner's `enqueue` passes the guard at once and leaves the mutex free |
| `LegacyQueue.Queue.constructor` | include/datatypes/Queue.h:112 | all three counters 0 and a free mutex |
| `LegacyQueue.Queue.Size` | include/datatypes/Queue.h:96 | always 0 |
| `LegacyQueue.Queue.IsEmpty` | include/datatypes/Queue.h:97 | always true |
| `LegacyQueue.Queue.IsFull` | include/datatypes/Queue.h:98 | always false |
| `LegacyQueue.Queue.Write` | include/datatypes/Queue.h:119 | the array and indices become `Push` of the old ones |
| `LegacyQueue.Queue.Enqueue` | include/datatypes/Queue.h:115-121 | the new queue, mutex and result are what `Enqueued` gives |
| `LegacyQueue.Queue.EnqueueTimeout` | include/datatypes/Queue.h:124-130 | the new queue, mutex and result are what `EnqueueFor` gives |
| `LegacyQueue.Queue.Dequeue` | include/datatypes/Queue.h:133-138 | the mutex and result are what `Dequeued` gives |
| `LegacyQueue.Queue.Peek` | include/datatypes/Queue.h:94 | the same effect as `dequeue()` |
| `LegacyQueue.Queue.DequeueTimeout` | include/datatypes/Queue.h:141-149 | the mutex and result are what `DequeueFor` gives |
| `ByteQueue.GetNext` | src/queue.cpp:5-7 | the new offset is below `_qs` |
| `ByteQueue.Put` | src/queue.cpp:28-30 | the store keeps the queue valid and adds one to `_count` |
| `ByteQueue.Head` | src/queue.cpp:40 | the copy hands out `_is` bytes |
| `ByteQueue.Taken` | src/queue.cpp:41-42 | the removal keeps the queue valid, takes one from `_count` and leaves the bytes |
| `ByteQueue.Apply` | src/queue.cpp:20-44 | another task's completed operation keeps the queue valid |
| `ByteQueue.Run` | src/queue.cpp:25 | so do all the operations of one yield |
| `ByteQueue.Await` | src/queue.cpp:22-26 | the wait keeps the queue valid and ends with true only on a ready queue |
| `ByteQueue.AwaitFacts` | src/queue.cpp:22-26 | true exactly on a ready queue, false only right after a reading strictly beyond `time` |
| `ByteQueue.EnqueueForFacts` | src/queue.cpp:20-32 | true only with a count of at least one, and, with no other task active, only having stored this item into this queue, which had room; false only when still full after a reading beyond the 32-bit `millis() + timeout` |
| `ByteQueue.DequeueForFacts` | src/queue.cpp:33-44 | true only having copied out `_is` bytes, and, with no other task active, only having handed out the item at `_back` of this queue, which was not empty, and removed it; false only when still empty past the deadline, copying nothing |
| `ByteQueue.AwaitAlone` | src/queue.cpp:22-26 | a wait with no other task active changes nothing |
| `ByteQueue.FailedCallsChangeNothing` | src/queue.cpp:20-39 | with no other task active, a failed `enqueue` or `dequeue` leaves buffer, offsets and count as they were |
| `ByteQueue.Items` | src/queue.cpp:28-42 | the queued one-byte items, oldest first |
| `ByteQueue.GetNextIsSucc` | src/queue.cpp:6 | with one-byte items `getNext` is the ring successor |
| `ByteQueue.PutAppends` | src/queue.cpp:28-30 | with one-byte items, `enqueue` appends the byte at the end |
| `ByteQueue.TakePops` | src/queue.cpp:40-42 | with one-byte items, `dequeue` hands out the oldest byte and keeps the rest in order |
| `ByteQueue.RunKeepsFifo` | src/queue.cpp:20-44 | other tasks' operations keep the one-byte discipline |
| `ByteQueue.FifoOrder` | src/queue.cpp:20-44 | one-byte items come out in the order they went in |
| `ByteQueue.AwaitKeepsFifo` | src/queue.cpp:22-26 | the wait keeps the one-byte discipline whatever other tasks do |
| `ByteQueue.EnqueueForFifo` | src/queue.cpp:20-32 | with one-byte items, a true result appends the byte to the queue the wait left, which had room; with no other task active, to the queue the call started with |
| `ByteQueue.DequeueForFifo` | src/queue.cpp:33-44 | with one-byte items, a true result hands out the oldest byte of the queue the wait left and keeps the rest in order; with no other task active, of the queue the call started with |
| `ByteQueue.WideItemsOverwrite` | src/queue.cpp:6 | with two-byte items in a four-item queue the third item overwrites the first |
| `ByteQueue.Queue.constructor` | src/queue.cpp:9-18 | `_qs` keeps the low 8 bits of `queue_size`; the buffer has `queue_size * item_size` bytes; all counters 0 |
| `ByteQueue.Queue.IsEmpty` | src/queue.cpp:50-52 | true exactly when `dequeue` has to wait; with one-byte items, true exactly when the queued contents are empty |
| `ByteQueue.Queue.IsFull` | src/queue.cpp:53-55 | true exactly when `enqueue` has to wait; with one-byte items, true exactly when `_qs` bytes are queued |
| `ByteQueue.Queue.Count` | src/queue.cpp:57-59 | never above `_qs` |
| `ByteQueue.Queue.Empty` | src/queue.cpp:46-48 | front, back and count become 0; the bytes stay |
| `ByteQueue.Queue.Interleave` | src/queue.cpp:25 | one yield applies the other tasks' operations |
| `ByteQueue.Queue.Store` | src/queue.cpp:28-30 | the copy, `getNext` and `_count++` give `Put` of the old state |
| `ByteQueue.Queue.Enqueue` | src/queue.cpp:20-32 | the new state and result are what `EnqueueFor` gives |
| `ByteQueue.Queue.Dequeue` | src/queue.cpp:33-44 | the new state, result and copied bytes are what `DequeueFor` gives |
| `IndexType.IndexWidthRanges` | src/datatypes/init.h:24-38 | 8 bits below 254, 16 bits below 65534, 32 bits from there; the pair `(true, false)` never occurs |
| `IndexType.IndexWidthFits` | src/datatypes/init.h:15-38 | the chosen type holds the capacity itself |
| `IndexType.IndexWidthMonotone` | src/datatypes/init.h:38 | a larger capacity never gets a narrower type |
| `IndexType.OlderSelectorsRanges` | include/datatypes/Queue.h:16-30 | the older queue selector gives 8 bits below 254 and 16 bits from there on; the older stack selector the same with 255 |
| `IndexType.OlderSelectorsOverflow` | include/datatypes/Stack.h:31 | the older selectors give 16 bits to capacities above 65535, which do not fit |
| `IndexType.OlderSelectorsFitSixteenBit` | include/datatypes/Queue.h:30 | with a 16-bit `unsigned int`, as on AVR, the older selectors always choose a type that holds the capacity |
| `IndexType.OlderSelectorsCounterexample` | include/datatypes/Queue.h:30 | with a 32-bit `unsigned int`, a capacity of 70000 gets a 16-bit index type |
| `SyncStack.PushedFacts` | src/datatypes/Stack.h:109-116 | `push` on a full stack reports false with no change; otherwise it appends and reports true |
| `SyncStack.PoppedFacts` | src/datatypes/Stack.h:139-145 | `pop` takes the newest element; on an empty stack it returns `_data[0]` with no change |
| `SyncStack.PushThenPop` | src/datatypes/Stack.h:108-145 | `pop` after a successful `push(x)` returns `x` and restores the elements and `_num` |
| `SyncStack.ClearedFacts` | src/datatypes/Stack.h:95 | `clear` leaves an empty valid stack with the buffer untouched |
| `SyncStack.TopReadsAbove` | src/datatypes/Stack.h:158-162 | `top` reads the slot above the newest element, and past the end when full |
| `SyncStack.PushThenTop` | src/datatypes/Stack.h:158-162 | for every non-full stack, `top` after `push(x)` returns the old slot above `x`, or reads past the end once full |
| `SyncStack.Handover` | src/datatypes/Stack.h:124-126 | `unlock(); yield(); lock();` reads no clock |
| `SyncStack.HandoverFacts` | src/datatypes/Stack.h:124-126 | a handover by the owner ends, if at all, with the owner holding the lock again |
| `SyncStack.RelockFacts` | src/datatypes/Stack.h:123-127 | the timed loops end, if at all, with the caller holding the lock |
| `SyncStack.LockedWhileFacts` | src/datatypes/Stack.h:122-127 | the lock and the loop end, if at all, with the caller owning the lock |
| `SyncStack.PushForFacts` | src/datatypes/Stack.h:118-137 | timed `push` reports false whenever its last reading is not past the deadline, stores only after it, and leaves the lock free |
| `SyncStack.PushForOverruns` | src/datatypes/Stack.h:123-134 | on a full stack timed `push` can store at `_data[i]` |
| `SyncStack.PopForNeverReturns` | src/datatypes/Stack.h:146-157 | timed `pop` calls `pop()` while holding the lock and never returns |
| `SyncStack.Stack.constructor` | src/datatypes/Stack.h:105-106 | `_num` 0 and a free lock |
| `SyncStack.Stack.Size` | src/datatypes/Stack.h:74 | the number of stored elements, at most `i` |
| `SyncStack.Stack.IsEmpty` | src/datatypes/Stack.h:82 | true exactly with no elements |
| `SyncStack.Stack.IsFull` | src/datatypes/Stack.h:89 | true exactly with `i` elements |
| `SyncStack.Stack.Clear` | src/datatypes/Stack.h:95 | the new stack is `Cleared` of the old one |
| `SyncStack.Stack.StoreTop` | src/datatypes/Stack.h:134 | `_data[_num++] = inp`, an overrun past the end |
| `SyncStack.Stack.Push` | src/datatypes/Stack.h:108-116 | under the guard, the new stack and result are what `Pushed` gives and the lock is released |
| `SyncStack.Stack.Pop` | src/datatypes/Stack.h:139-145 | under the guard, the new stack and result are what `Popped` gives and the lock is released |
| `SyncStack.Stack.Top` | src/datatypes/Stack.h:158-162 | under the guard, `_data[_num]`, or a read past the end when full |
| `SyncStack.Stack.RelockLoop` | src/datatypes/Stack.h:123-127 | the loop makes the lock and result what `Relock` gives |
| `SyncStack.Stack.PushTimeout` | src/datatypes/Stack.h:118-137 | the new stack, lock and result are what `PushFor` gives |
| `SyncStack.Stack.PopTimeout` | src/datatypes/Stack.h:146-157 | the new stack, lock and result are what `PopFor` gives |
| `LegacyStack.SpinWhileFacts` | include/datatypes/Stack.h:131-132 | the waiting loop ends only at a reading on its stopping side of the deadline |
| `LegacyStack.PushForFacts` | include/datatypes/Stack.h:127-139 | once the guard holds the mutex, timed `push` reports false whenever the last reading is not past the deadline, stores only after it, and the mutex ends free |
| `LegacyStack.PopForFacts` | include/datatypes/Stack.h:148-158 | timed `pop` returns what `pop()` would, with the mutex free; on an empty stack only after a reading past the deadline |
| `LegacyStack.PushForLosesMutex` | include/datatypes/Stack.h:131-137 | another task's `unlock` during the wait frees the held mutex, and timed `push` still writes, here past the end |
| `LegacyStack.RunEndingInReleaseFrees` | include/datatypes/Signaling.h:147-152 | for every mutex, a run of other tasks that ends with an `unlock` leaves it free and unowned |
| `LegacyStack.Stack.constructor` | include/datatypes/Stack.h:114-115 | `_num` 0 and a free mutex |
| `LegacyStack.Stack.Size` | include/datatypes/Stack.h:90 | the number of stored elements, at most `i` |
| `LegacyStack.Stack.IsEmpty` | include/datatypes/Stack.h:98 | true exactly with no elements |
| `LegacyStack.Stack.IsFull` | include/datatypes/Stack.h:105 | true exactly with `i` elements |
| `LegacyStack.Stack.Clear` | include/datatypes/Stack.h:111 | `_num` becomes 0, the buffer stays |
| `LegacyStack.Stack.StoreTop` | include/datatypes/Stack.h:137 | `_data[_num++] = inp`, an overrun past the end |
| `LegacyStack.Stack.Push` | include/datatypes/Stack.h:117-125 | under the guard, the new stack and result are what `Pushed` gives, and the mutex ends free |
| `LegacyStack.Stack.Pop` | include/datatypes/Stack.h:141-147 | under the guard, the new stack and result are what `Popped` gives, and the mutex ends free |
| `LegacyStack.Stack.Top` | include/datatypes/Stack.h:159-163 | under the guard, `_data[_num]`, or a read past the end when full |
| `LegacyStack.Stack.SpinLoop` | include/datatypes/Stack.h:131-132 | the loop makes the mutex and result what `SpinWhile` gives |
| `LegacyStack.Stack.PushTimeout` | include/datatypes/Stack.h:127-139 | the new stack, mutex and result are what `PushFor` gives |
| `LegacyStack.Stack.PopTimeout` | include/datatypes/Stack.h:148-158 | the new stack, mutex and result are what `PopFor` gives |
| `Steppers.Updated` | src/steppers.h:37-48 | one step toward the target, nothing at the target; the distance shrinks by one and never changes sign |
| `Steppers.UpdatedTimesDist` | src/steppers.h:38-40 | `k` updates, no more than the distance, shrink it by exactly `k` |
| `Steppers.UpdatedTimesAtTarget` | src/steppers.h:38 | at the target, updates change nothing |
| `Steppers.ReachesTarget` | src/steppers.h:37-52 | `abs(distFromTargStep())` updates reach the target, no fewer do, and it stays there |
| `Steppers.UpdatedTimesSplit` | src/steppers.h:37-48 | `n + m` updates are `n` updates followed by `m` |
| `Steppers.Stepper.constructor` | src/steppers.h:19-25 | both pins and both counters 0 |
| `Steppers.Stepper.WithPins` | src/steppers.h:19-30 | the given pins and both counters 0 |
| `Steppers.Stepper.Update` | src/steppers.h:37-48 | the counters become `Updated` of the old ones; a pulse goes out exactly off target, with the direction toward it |
| `Steppers.Stepper.DistFromTargStep` | src/steppers.h:50-52 | zero exactly at the target, positive exactly when the next step is forward, and its magnitude of updates reaches the target |
| `Steppers.Stepper.Zero` | src/steppers.h:54-57 | both counters 0, pins unchanged |
| `Steppers.Stepper.AbsTargStep` | src/steppers.h:59-61 | only the target changes, to `trg` |
| `Steppers.Stepper.RelTargStep` | src/steppers.h:62-64 | only the target changes, by `trg` |
| `FibDemo.IsDigit` | test/3_fib.cpp:15-17 | true exactly for the ten decimal digits |
| `FibDemo.Fib` | test/3_fib.cpp:21-30 | 1 for `i <= 1`, 2 for `i == 2`, and the Fibonacci number `F(i)` in 32 bits for `i >= 3` |
| `FibDemo.FibCorrected` | test/3_fib.cpp:21-30 | with `c` starting at 1 the result is `F(i)` in 32 bits for every `i >= 1` |
| `FibDemo.FibAsWrittenBreaksRecurrence` | test/3_fib.cpp:22-29 | `fib(2) + fib(3) != fib(4)` |
| `FibDemo.FibCorrectedRecurrence` | test/3_fib.cpp:19-29 | the corrected values satisfy the Fibonacci recurrence in 32 bits |
| `FibDemo.DigitValue` | test/3_fib.cpp:43 | `inp - '0'` is the digit's value |
| `FibDemo.ShiftedAllIsDecimal` | test/3_fib.cpp:41-44 | the accumulator holds the decimal value of the digits read, in 32 bits |
| `FibDemo.SerialInput.constructor` | test/3_fib.cpp:33 | `inum` starts at 0 |
| `FibDemo.SerialInput.Feed` | test/3_fib.cpp:41-54 | a digit gives `inum * 10 + digit` in 32 bits; anything else hands `inum` on and clears it |
| `FibDemo.SerialInput.FeedNumber` | test/3_fib.cpp:41-54 | digits and then a separator hand on the decimal value of the digits in 32 bits |

## Left out

- `setjmp`/`longjmp` and `alloca` in `begin` and `v()`, and the register save and restore of the interrupt kernel: they manipulate machine context. A switch is one step that changes the current index. The invoke-then-yield behaviour of the trampoline of `begin` is modelled by `Kernel.TaskLoop`.
- Interrupt masking: critical sections are atomic. The only trace of it is the `masked` result on the paths that return with interrupts still disabled:
  - the failed `unlock` of src/datatypes/Signaling.h;
  - the owner's early return from `lock()` in the older `Semaphore` and the `Mutex`.
- Real preemption: other tasks act only during a yield. In the interrupt kernel, the scan is a method called with one clock reading.
- `millis()`, `micros()` and the timer hardware: clock readings are inputs.
- Priorities: they are declared but never implemented.
- `Armeture`, floating point, Serial, GPIO, SD and SPI calls, the examples, the `Task` class and the board hooks (`ESP.wdtFeed`, `serialEventRun`, `ARD_YIELD`): they are application glue, hardware or board-specific code.
- `createTask` and `os_begin`: the interrupt kernel's table is given to the constructor, with the standby task already in it.
- The template queues and stacks: other tasks' operations on the container itself during a yield are not modelled. Only their operations on its lock are.
- The lock wrappers of the newer template queue and stack (`getLock`, `lock`, `lock(t)`, `lockImmediate`, `unlock`, `available`): they only forward to the lock's own methods.
- The template queues, dead code: because `_count` is always 0, `isFull()` is always false. The models skip these branches:
  - the second waiting loop of both timed operations;
  - the full-queue branch of timed `enqueue`;
  - the non-empty branch of `dequeue`.
- Template containers, index width: indices and counters are natural numbers. The index type of the template is not applied to them, and `IndexType` models it on its own.
- Writes past the end of a template array: they are recorded as an `overrun` flag instead of a memory write.
- The success path of token `get` has no `return` statement. It is modelled as reporting true.
- `release` of the token and `empty()` of the byte queue declare a `bool` result but return none. They are modelled without a result.
- `ByteQueue.Queue.constructor`: a failed `malloc` is not modelled. The product `queue_size * item_size` is required to fit the 16-bit `int` of AVR. On a 32-bit target the product always fits, and larger queues are not modelled.
- `IsrKernel.IsrScheduler.Switch`: when no task is awake, the model returns with `found` false after one full cycle, back at the current task. The interrupt handler of src/sceduler.cpp:48-52 spins for ever there, because `millis()` does not advance while interrupts are masked. The model does not state that this path never returns.
- `Kernel.Scheduler.AddTask`: it requires `numt < 8`. The source has no capacity check, and the write would fall outside `tasks[]` (src/ArdRTOS.h:17).
- `Kernel.Scheduler.AddTaskArg`: requires `numt < 8` for the same reason.
- `Steppers.Stepper.DistFromTargStep`: it requires the difference to fit `int64_t`. The overflow is undefined in the source.
- `Steppers.Stepper.RelTargStep`: it requires the sum to fit `int64_t`, for the same reason.
- The FibProcess and SerialOutput tasks of test/3_fib.cpp: they are glue between the queue and the serial port.
- src/Scheduler.h declares `addTask` without a priority and spells `delayUntil` with one `l`. The model follows src/scheduler.cpp, which defines the priority overload and `delayUntill`.
- Wide items in the byte queue: the FIFO order is proved only for one-byte items. For wider items, `ByteQueue.WideItemsOverwrite` shows that the order does not hold.

## Findings

| source | as written | input that shows it | evidently intended | confidence | as-written member | corrected member |
|---|---|---|---|---|---|---|
| test/3_fib.cpp:22-29 | `c` starts at 2, so the loop-free case `i == 2` returns 2 | `fib(2)` is 2, while `F(2)` is 1 | `c` starting at 1, so `fib(i)` is `F(i)` for every `i >= 1` | not executed | `FibDemo.Fib` | `FibDemo.FibCorrected` |
| src/datatypes/Queue.h:97-100 | `next` returns `i` on wrap, though its documentation promises the value before the increment | `i - 1` writes into an empty queue, then one more: the last one goes to `_data[i]` | return `n` before the increment, also on wrap | not executed | `SyncQueue.FillOverruns` | `SyncQueue.FillIntended` |
| include/datatypes/Queue.h:30 | the second flag of the index selector is the constant `1 < UINT16_MAX-1` | capacity 70000 gets a 16-bit index type; this needs a 32-bit `unsigned int` (SAMD, STM32), while on AVR every capacity fits 16 bits and the selector is correct (`IndexType.OlderSelectorsFitSixteenBit`) | `i < UINT16_MAX-1`, as in src/datatypes/init.h:38, so the type holds the capacity | not executed | `IndexType.OlderSelectorsCounterexample` | `IndexType.IndexWidthFits` |
