# executors: task pools and handle ownership

This project models the core of the `executors` library, a C++ prototype of
the executor proposal that runs closures on Win32 thread pools or on
libdispatch (GCD) queues. It covers three parts:

- `unique_handle` (`handles.dfy`, module `UniqueHandles`): the move-only
  owner of one OS handle. A ghost log records every value passed to the
  traits' `close`. The model proves that only valid values are closed. A
  reset to the value already held closes nothing, and `release` closes
  nothing. Over any run of resets and releases followed by the destructor,
  every valid value the handle was given is closed, handed out by `release`,
  or absorbed by a reset to the value it already held, exactly once.
- The Windows helpers (`win_thread_helper.dfy`, module `WinThreadHelper`):
  the conversions of a deadline or a delay to the `DWORD` of milliseconds a
  timer takes. Also the two task counters of `functional_pool`, and
  `functional_timer_pool` built on top of it.
- The GCD pool (`gcd_thread_pool.dfy`, module `GcdThreadPool`): the
  nanosecond conversions and the choice of queue. Also the dispatch group's
  count of outstanding work and its reference count, which `pool_group` and
  its `time_fnc_wrapper` change, and the `thread_pool` facade.

`arith.dfy` (module `IntArith`) holds small lemmas about integer
multiplication and division that the conversions need.

Time points and durations are integer counts of `system_clock` ticks. The
current time (`system_clock::now()`) is a parameter `now`. The clock's
resolution is a parameter of each conversion. The constants give the values of
the two standard libraries the code targets: MSVC's 100 ns tick (10 000 per
millisecond) and Apple libc++'s 1 µs tick (1000 ns).

Every pool keeps a ghost history of events: submitted, started, finished, or
for GCD, async submitted, async ran, timer armed, timer ran, timer deleted.
`Replay` folds the history into the counters. `Admissible` says that each event
had a cause: a task starts only after it was submitted, and so on. The
class methods keep the real fields equal to `Replay(history)`. Lemmas then
state the counters in closed form and derive the bounds and the drain
conditions from that.

## Model

| member | source | states |
|---|---|---|
| UniqueHandles.AfterClose | include/thread_util.h:20-24 | close passes the value to the traits exactly when it is valid, and never passes the invalid value |
| UniqueHandles.AfterReset | include/thread_util.h:40-47 | reset holds the new value afterwards; it closes the old value only when that is valid and differs from the new one; a same-value reset changes nothing; the result is true iff the new value is valid |
| UniqueHandles.AfterRelease | include/thread_util.h:49-53 | release returns the held value, leaves the invalid value behind and closes nothing |
| UniqueHandles.AfterMoveConstruct | include/thread_util.h:34 | the new handle takes the source's value with nothing closed; the source is left invalid with its log untouched |
| UniqueHandles.AfterMoveAssign | include/thread_util.h:60-63 | the target takes the source's value and closes its old one only when that is valid and different; the source is left invalid |
| UniqueHandles.SelfMoveAssignKeepsValue | include/thread_util.h:60-63 | a self move (release, then reset to the released value) closes nothing and keeps the value |
| UniqueHandles.ValidOnly | include/thread_util.h:56-58 | keeps exactly the given values that test as valid: the invalid value is dropped and every other value is kept |
| UniqueHandles.OwnershipConserved | include/thread_util.h:40-53 | after any run of resets and releases and a final close, the closed values, the released valid values and the values absorbed by same-value resets are, as a multiset, the initial log plus the initial and acquired valid values |
| UniqueHandles.NeverClosesInvalid | include/thread_util.h:20-24 | no run of resets, releases and a final close ever closes the invalid value |
| UniqueHandles.NoDoubleClose | include/thread_util.h:30-47 | when each valid resource is handed over once, with any repeat being a reset to the value already held, no value is closed twice over a handle's whole life |
| UniqueHandles.RepeatedResetClosesOnce | include/thread_util.h:40-47 | resetting twice to the same valid value, then destroying the handle, closes that value exactly once |
| UniqueHandles.UniqueHandle.Default | include/thread_util.h:28 | the default constructor holds the invalid value and tests false |
| UniqueHandles.UniqueHandle.constructor | include/thread_util.h:28 | constructing from a value holds that value with nothing closed |
| UniqueHandles.UniqueHandle.MoveFrom | include/thread_util.h:34 | the move constructor's state is AfterMoveConstruct of the source |
| UniqueHandles.UniqueHandle.Close | include/thread_util.h:20-24 | the handle's state after close is AfterClose |
| UniqueHandles.UniqueHandle.Destroy | include/thread_util.h:30-32 | the destructor closes once, as AfterClose, and ends the handle's life |
| UniqueHandles.UniqueHandle.Get | include/thread_util.h:36-38 | get returns the held value |
| UniqueHandles.UniqueHandle.IsValid | include/thread_util.h:56-58 | the handle tests true iff it does not hold the invalid value |
| UniqueHandles.UniqueHandle.Reset | include/thread_util.h:40-47 | the state and result after reset are AfterReset |
| UniqueHandles.UniqueHandle.Release | include/thread_util.h:49-53 | the state and result after release are AfterRelease |
| UniqueHandles.UniqueHandle.MoveAssign | include/thread_util.h:60-63 | move assignment from another handle is AfterMoveAssign; from itself it keeps the state |
| WinThreadHelper.TruncDiv | include/win/thread_helper.h:39 | duration_cast's integer division rounds toward zero, for both signs |
| WinThreadHelper.AbsoluteToRelativeMilli | include/win/thread_helper.h:37-40 | the result is a DWORD; it is 0 when less than a millisecond is left, and otherwise the whole milliseconds left modulo 2^32 |
| WinThreadHelper.RelativeToRelativeMilli | include/win/thread_helper.h:42-47 | the result is a DWORD, and for a non-negative delay it is the whole milliseconds modulo 2^32 |
| WinThreadHelper.AbsoluteIsRelativeOfTimeLeft | include/win/thread_helper.h:37-47 | for a deadline not in the past the absolute conversion equals the relative conversion of the time left |
| WinThreadHelper.AbsoluteRoundsDown | include/win/thread_helper.h:37-40 | when it fits a DWORD, the timer's milliseconds are never more than the time left and less than one millisecond short of it |
| WinThreadHelper.FarDeadlineWraps | include/win/thread_helper.h:39 | a deadline 2^32 ms ahead is cast to 0 ms |
| WinThreadHelper.NegativeDelayWraps | include/win/thread_helper.h:42-47 | a past deadline clamps to 0 but the same negative delay wraps to 2^32 minus its milliseconds |
| WinThreadHelper.AfterSubmit | include/win/thread_helper.h:143-149 | submit raises both counters by one |
| WinThreadHelper.AfterStart | include/win/thread_helper.h:81-84 | start_task lowers the uninitiated count by one |
| WinThreadHelper.AfterFinish | include/win/thread_helper.h:86-92 | finish_task lowers the unfinished count by one and notifies iff it reaches zero |
| WinThreadHelper.ReplayCounts | include/win/thread_helper.h:81-149 | uninitiated is submitted minus started, and unfinished is submitted minus finished |
| WinThreadHelper.AdmissibleOrder | include/win/thread_helper.h:104-111 | no more tasks finish than start, and no more start than were submitted |
| WinThreadHelper.CountersBounded | include/win/thread_helper.h:100-101 | 0 <= uninitiated <= unfinished in every admissible history |
| WinThreadHelper.DrainedIffAllFinished | include/win/thread_helper.h:127-133 | unfinished is zero iff every submitted task finished, and then nothing is uninitiated |
| WinThreadHelper.FinishNotifiesWhenDrained | include/win/thread_helper.h:86-92 | finish_task notifies iff the finishing task is the last submitted one outstanding |
| WinThreadHelper.FunctionalPool.constructor | include/win/thread_helper.h:115-116 | the default pool starts with both counters zero and no history |
| WinThreadHelper.FunctionalPool.WithThreads | include/win/thread_helper.h:118-125 | the sized pool starts with both counters zero and no history |
| WinThreadHelper.FunctionalPool.Bounded | include/win/thread_helper.h:100-101 | a valid pool has 0 <= uninitiated <= unfinished |
| WinThreadHelper.FunctionalPool.Submit | include/win/thread_helper.h:143-149 | the counters after submit are AfterSubmit of those before |
| WinThreadHelper.FunctionalPool.StartTask | include/win/thread_helper.h:81-84 | the counters after start_task are AfterStart of those before |
| WinThreadHelper.FunctionalPool.FinishTask | include/win/thread_helper.h:86-92 | the counters and the notification are AfterFinish of those before |
| WinThreadHelper.FunctionalPool.Run | include/win/thread_helper.h:104-111 | running a task starts and then finishes it |
| WinThreadHelper.FunctionalPool.Wait | include/win/thread_helper.h:127-133 | wait returns with no unfinished and no uninitiated task, no new submissions |
| WinThreadHelper.FunctionalPool.Destroy | include/win/thread_helper.h:134-139 | the destructor waits until every task has finished |
| WinThreadHelper.FunctionalPool.UninitiatedTaskCount | include/win/thread_helper.h:151-154 | the count is non-negative and equals submitted minus started tasks |
| WinThreadHelper.FunctionalTimerPool.constructor | include/win/thread_helper.h:179 | the default timer pool starts empty |
| WinThreadHelper.FunctionalTimerPool.WithThreads | include/win/thread_helper.h:181 | the sized timer pool starts empty |
| WinThreadHelper.FunctionalTimerPool.SubmitInternal | include/win/thread_helper.h:165-172 | a timed task is counted as submitted and its timer gets the given milliseconds |
| WinThreadHelper.FunctionalTimerPool.SubmitAt | include/win/thread_helper.h:183-187 | the timer gets the absolute conversion of the deadline |
| WinThreadHelper.FunctionalTimerPool.SubmitAfter | include/win/thread_helper.h:189-193 | the timer gets the relative conversion of the delay |
| WinThreadHelper.FunctionalTimerPool.Destroy | include/win/thread_helper.h:175-178 | the destructor waits until every task has finished |
| GcdThreadPool.AbsoluteToRelativeNs | include/gcd/platform_thread_pool.h:56-59 | non-negative; zero iff the deadline is not after now; otherwise the nanoseconds left |
| GcdThreadPool.RelativeToRelativeNs | include/gcd/platform_thread_pool.h:61-66 | a uint64_t; the delay in nanoseconds whenever that fits |
| GcdThreadPool.AbsoluteIsRelativeOfTimeLeftNs | include/gcd/platform_thread_pool.h:56-66 | for a future deadline that fits, the two conversions agree |
| GcdThreadPool.NegativeDelayWrapsNs | include/gcd/platform_thread_pool.h:56-66 | a past deadline clamps to 0 but a negative delay wraps to 2^64 minus its nanoseconds |
| GcdThreadPool.QueueFor | include/gcd/platform_thread_pool.h:176-179 | the pool gets a dedicated serial queue iff N == 1 |
| GcdThreadPool.InitialQueueReferences | include/gcd/platform_thread_pool.h:121-128 | the pool holds two queue references iff N == 1, otherwise one |
| GcdThreadPool.QueueReferencesAfterDestroy | include/gcd/platform_thread_pool.h:114-128 | over a whole life of `thread_pool(N)` (constructed, any adds, destroyed), every request is served and one queue reference remains iff N == 1, none otherwise |
| GcdThreadPool.AfterAsyncSubmit | include/gcd/platform_thread_pool.h:141-145 | an immediate task enters the group once |
| GcdThreadPool.AfterAsyncRun | include/gcd/platform_thread_pool.h:130-134 | an immediate task leaves the group once it ran |
| GcdThreadPool.AfterWrapperCreated | include/gcd/platform_thread_pool.h:99-106 | a timed wrapper retains and enters the group once |
| GcdThreadPool.AfterWrapperDeleted | include/gcd/platform_thread_pool.h:93-97 | deleting a timed wrapper leaves and releases the group once |
| GcdThreadPool.WrapperBalanced | include/gcd/platform_thread_pool.h:93-106 | creating and deleting a wrapper leaves the group as it was |
| GcdThreadPool.Extend | include/gcd/platform_thread_pool.h:130-167 | an enabled event keeps the history admissible and moves the group by its step |
| GcdThreadPool.ReplayCounts | include/gcd/platform_thread_pool.h:93-167 | outstanding work is tasks not yet run plus wrappers not yet deleted; references are one plus live wrappers |
| GcdThreadPool.AdmissibleOrder | include/gcd/platform_thread_pool.h:130-139 | no more tasks run than were submitted; a wrapper is deleted only after its task ran, and runs only after it was armed |
| GcdThreadPool.GroupBounded | include/gcd/platform_thread_pool.h:93-106 | the group's count is never negative and the pool's own reference is never given up by wrappers |
| GcdThreadPool.EmptyIffDrained | include/gcd/platform_thread_pool.h:117-120 | the group is empty iff every task ran and every wrapper was deleted; then every timed task ran and one reference is left |
| GcdThreadPool.PoolGroup.constructor | include/gcd/platform_thread_pool.h:121-128 | a new pool_group has an empty group with one reference and holds InitialQueueReferences(N) on its queue |
| GcdThreadPool.PoolGroup.Submit | include/gcd/platform_thread_pool.h:141-145 | the group after submit is AfterAsyncSubmit of the one before |
| GcdThreadPool.PoolGroup.Callback | include/gcd/platform_thread_pool.h:130-134 | the group after a task's callback is AfterAsyncRun of the one before |
| GcdThreadPool.PoolGroup.ArmTimer | include/gcd/platform_thread_pool.h:99-106 | the group after creating a wrapper is AfterWrapperCreated, and its timer gets the given nanoseconds |
| GcdThreadPool.PoolGroup.SubmitAt | include/gcd/platform_thread_pool.h:147-156 | the timer gets the absolute conversion of the deadline |
| GcdThreadPool.PoolGroup.SubmitAfter | include/gcd/platform_thread_pool.h:157-167 | the timer gets the relative conversion of the delay |
| GcdThreadPool.PoolGroup.TimeCallback | include/gcd/platform_thread_pool.h:135-139 | the timed task runs before its wrapper is deleted, and the group ends as AfterWrapperDeleted |
| GcdThreadPool.PoolGroup.Destroy | include/gcd/platform_thread_pool.h:114-120 | the destructor returns only once every task ran and every timer fired, then drops the group's last reference and one queue reference |
| GcdThreadPool.ThreadPool.Default | include/gcd/platform_thread_pool.h:172-175 | the default pool uses the global queue, as N = 0, with an empty group and no timers |
| GcdThreadPool.ThreadPool.constructor | include/gcd/platform_thread_pool.h:176-179 | thread_pool(N) uses QueueFor(N) and holds InitialQueueReferences(N), with an empty group and no timers |
| GcdThreadPool.ThreadPool.Add | include/gcd/platform_thread_pool.h:181-184 | add submits an immediate task; queue references and timers are unchanged |
| GcdThreadPool.ThreadPool.AddAt | include/gcd/platform_thread_pool.h:186-189 | add_at arms a timer for the absolute conversion; queue references are unchanged |
| GcdThreadPool.ThreadPool.AddAfter | include/gcd/platform_thread_pool.h:191-194 | add_after arms a timer for the relative conversion; queue references are unchanged |
| GcdThreadPool.ThreadPool.UninitiatedTaskCount | include/gcd/platform_thread_pool.h:196-198 | the count is always 0, whatever is pending |
| GcdThreadPool.ThreadPool.Destroy | include/gcd/platform_thread_pool.h:169 | dropping the pool destroys its pool_group: the history only grows, with no new submissions, every task ran and every timer fired, then the group's last reference and one queue reference go |

## Left out

- Calls into Win32 (`CreateThreadpool`, `TrySubmitThreadpoolCallback`, `CreateTimerQueueTimer`, `CloseThreadpoolCleanupGroupMembers`, ...) and libdispatch (`dispatch_group_async_f`, `dispatch_source_set_timer`, ...) are not modelled. Their results are ignored as the code ignores them. A timer's delay is recorded in `timerDelays`, and a task runs when the model calls its callback.
- Concurrency and blocking: counter updates are atomic in the source and happen one at a time here. `Wait` and `PoolGroup.Destroy` do not block. They run the outstanding callbacks in a loop until the pool drains, which is the state in which the blocked call returns, provided nothing new is submitted.
- The closures, the heap `fnc_wrapper` and `time_fnc_wrapper` objects and the wrappers' `dispatch_source` handles are not objects here. Wrappers are counted, and their `unique_dispatch_source` is not tracked.
- The number of threads given to `functional_pool(num_threads)` only sizes the Win32 pool. It has no effect on the counters and is not stored.
- `WinThreadHelper.FunctionalPool.UninitiatedTaskCount`: the counters are `atomic<int>` and the count is cast with `(size_t)`. The model uses unbounded integers, so 32-bit overflow of the counters and the cast are not modelled. The counters never go negative in the model, so the cast would not change the value.
- `GcdThreadPool.ThreadPool.Destroy`: `thread_pool` holds a `shared_ptr<pool_group>`, so copies share one `pool_group` and only the last copy to go drains and destroys it. Copies and the shared count are not modelled; `Destroy` is that last drop.
- `AbsoluteToRelativeMilli`, `AbsoluteToRelativeNs`: the signed 64-bit `long long` arithmetic of `duration_cast` (tick difference times the ratio) is unbounded here. Only the casts to `DWORD` and `uint64_t` wrap.
- `GcdThreadPool.QueueReferencesAfterDestroy`: the global queue is released once when its pool dies, although `dispatch_get_global_queue` hands out no reference. libdispatch ignores that, and the model only counts the references a pool takes.
- The copy operations of `unique_handle` are declared private and never defined, so they have no model. Its `Traits` become the `invalid` value of each handle, and `Traits::close` becomes the ghost `closed` log.
- `UniqueHandles.UniqueHandle.MoveAssign`: requires both handles to share the same invalid value, as they do in C++, where both have the same `Traits`.
- `platform_serial_executor.h`, `thread_per_task_executor.h`, `system_executor.h`, `win/platform_thread_pool.h` and the tests are not part of this model.
