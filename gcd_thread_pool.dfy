/** Model of the libdispatch (GCD) `thread_pool`: the deadline and delay
    conversions to nanoseconds, the choice of dispatch queue, and the
    bookkeeping `pool_group` keeps on its dispatch group -- the group's count
    of outstanding work and its reference count -- as immediate tasks and
    timed wrappers come and go.  Time points and durations are integer counts
    of `system_clock` ticks; the current time is a parameter. */
module GcdThreadPool {

  import opened IntArith

  /** `uint64_t` arithmetic is taken modulo this. */
  const Uint64Modulus: int := 0x1_0000_0000_0000_0000

  /** Apple libc++'s `system_clock` counts microseconds: 1000 nanoseconds per tick. */
  const SystemClockNanosPerTick: int := 1000

  /** `absolute_to_relative_ns`: the time left until `deadline` in nanoseconds,
      clamped at zero. */
  function AbsoluteToRelativeNs(deadline: int, now: int, nanosPerTick: int): (ns: int)
    requires nanosPerTick > 0
    ensures ns >= 0
    ensures ns == 0 <==> deadline <= now
    ensures deadline >= now ==> ns == (deadline - now) * nanosPerTick
  {
    var left := (deadline - now) * nanosPerTick;
    MulSign(deadline - now, nanosPerTick);
    if left > 0 then left else 0
  }

  /** `relative_to_relative_ns`: the delay in nanoseconds, computed in
      `uint64_t` (the common type of the tick count and the result), so it is
      never clamped and a negative delay wraps around. */
  function RelativeToRelativeNs(delay: int, nanosPerTick: int): (ns: int)
    requires nanosPerTick > 0
    ensures 0 <= ns < Uint64Modulus
    ensures 0 <= delay * nanosPerTick < Uint64Modulus ==> ns == delay * nanosPerTick
  {
    (delay * nanosPerTick) % Uint64Modulus
  }

  lemma MulSign(x: int, b: int)
    requires b > 0
    ensures x > 0 ==> x * b > 0
    ensures x <= 0 ==> x * b <= 0
  {
    if x > 0 {
      MulStrict(0, x, b);
    } else {
      MulMonotone(0, x, b);
    }
  }

  /** For a deadline not in the past whose time left fits in `uint64_t`, the two
      conversions agree. */
  lemma AbsoluteIsRelativeOfTimeLeftNs(deadline: int, now: int, nanosPerTick: int)
    requires nanosPerTick > 0 && deadline >= now
    requires (deadline - now) * nanosPerTick < Uint64Modulus
    ensures AbsoluteToRelativeNs(deadline, now, nanosPerTick)
            == RelativeToRelativeNs(deadline - now, nanosPerTick)
  {
    MulNonNegative(deadline - now, nanosPerTick);
  }

  /** A past deadline gives a timer that fires at once, but the same negative
      delay given as a relative time wraps to a huge unsigned count. */
  lemma NegativeDelayWrapsNs(delay: int, now: int, nanosPerTick: int)
    requires nanosPerTick > 0 && delay < 0
    requires -Uint64Modulus < delay * nanosPerTick
    ensures AbsoluteToRelativeNs(now + delay, now, nanosPerTick) == 0
    ensures RelativeToRelativeNs(delay, nanosPerTick) == Uint64Modulus + delay * nanosPerTick
    ensures RelativeToRelativeNs(delay, nanosPerTick) > 0
  {
    MulSign(delay, nanosPerTick);
    MulSign(-delay, nanosPerTick);
    NegateProduct(-delay, nanosPerTick);
  }

  // ---------------------------------------------------------------------
  // Queue selection.

  /** The queue a pool runs on: a freshly created serial queue, or the shared
      global concurrent queue of default priority. */
  datatype QueueKind = DedicatedSerial | GlobalConcurrent

  /** `thread_pool(N)`: a dedicated serial queue exactly when `N == 1`. */
  function QueueFor(n: int): (q: QueueKind)
    ensures q == DedicatedSerial <==> n == 1
  {
    if n == 1 then DedicatedSerial else GlobalConcurrent
  }

  /** The references `pool_group(N, q)` holds on its queue once constructed: the
      one it adopts into its `unique_dispatch_queue`, plus an extra retain when
      `N == 1`. */
  function InitialQueueReferences(n: int): (r: int)
    ensures r == 1 || r == 2
    ensures r == 2 <==> n == 1
  {
    if n == 1 then 2 else 1
  }

  // ---------------------------------------------------------------------
  // Dispatch-group bookkeeping of `pool_group`.

  /** What happens to one pool's dispatch group: an immediate task is submitted
      with `dispatch_group_async_f` or its callback returns; a `time_fnc_wrapper`
      is created, its task runs in `time_callback`, or it is deleted. */
  datatype GroupEvent = AsyncSubmitted | AsyncRan | TimerArmed | TimerRan | TimerDeleted

  /** The dispatch group's count of outstanding `enter`s, and its reference count. */
  datatype GroupState = GroupState(outstanding: int, refs: int)

  /** `dispatch_group_async_f` enters the group for the task. */
  function AfterAsyncSubmit(g: GroupState): (r: GroupState)
    ensures r.outstanding == g.outstanding + 1 && r.refs == g.refs
  {
    GroupState(g.outstanding + 1, g.refs)
  }

  /** Once `callback` (the task, then deleting its wrapper) returns, the group is left. */
  function AfterAsyncRun(g: GroupState): (r: GroupState)
    ensures r.outstanding == g.outstanding - 1 && r.refs == g.refs
  {
    GroupState(g.outstanding - 1, g.refs)
  }

  /** The `time_fnc_wrapper` constructor retains and enters the group once. */
  function AfterWrapperCreated(g: GroupState): (r: GroupState)
    ensures r.outstanding == g.outstanding + 1 && r.refs == g.refs + 1
  {
    GroupState(g.outstanding + 1, g.refs + 1)
  }

  /** The `time_fnc_wrapper` destructor leaves and releases the group once. */
  function AfterWrapperDeleted(g: GroupState): (r: GroupState)
    ensures r.outstanding == g.outstanding - 1 && r.refs == g.refs - 1
  {
    GroupState(g.outstanding - 1, g.refs - 1)
  }

  /** A wrapper's life leaves the group's counts as it found them. */
  lemma WrapperBalanced(g: GroupState)
    ensures AfterWrapperDeleted(AfterWrapperCreated(g)) == g
  {
  }

  function Step(g: GroupState, e: GroupEvent): GroupState
  {
    match e
    case AsyncSubmitted => AfterAsyncSubmit(g)
    case AsyncRan => AfterAsyncRun(g)
    case TimerArmed => AfterWrapperCreated(g)
    case TimerRan => g
    case TimerDeleted => AfterWrapperDeleted(g)
  }

  /** The group after the events of `h`, from `dispatch_group_create`: nothing
      outstanding, one reference (owned by the pool's `unique_dispatch_group`). */
  function Replay(h: seq<GroupEvent>): GroupState
    decreases |h|
  {
    if h == [] then GroupState(0, 1) else Step(Replay(h[..|h| - 1]), h[|h| - 1])
  }

  function Count(h: seq<GroupEvent>, e: GroupEvent): nat
  {
    multiset(h)[e]
  }

  /** A callback runs only a submitted task, once; `time_callback` runs the task
      of a live wrapper, and deletes only a wrapper whose task has run. */
  predicate Enabled(h: seq<GroupEvent>, e: GroupEvent)
  {
    match e
    case AsyncSubmitted => true
    case AsyncRan => Count(h, AsyncRan) < Count(h, AsyncSubmitted)
    case TimerArmed => true
    case TimerRan => Count(h, TimerRan) < Count(h, TimerArmed)
    case TimerDeleted => Count(h, TimerDeleted) < Count(h, TimerRan)
  }

  predicate Admissible(h: seq<GroupEvent>)
    decreases |h|
  {
    h == [] || (Admissible(h[..|h| - 1]) && Enabled(h[..|h| - 1], h[|h| - 1]))
  }

  lemma CountSnoc(h: seq<GroupEvent>, e: GroupEvent, x: GroupEvent)
    ensures Count(h + [e], x) == Count(h, x) + (if e == x then 1 else 0)
  {
    assert multiset(h + [e]) == multiset(h) + multiset{e};
  }

  lemma CountSnocAll(h: seq<GroupEvent>, e: GroupEvent)
    ensures forall x :: Count(h + [e], x) == Count(h, x) + (if e == x then 1 else 0)
  {
    forall x
      ensures Count(h + [e], x) == Count(h, x) + (if e == x then 1 else 0)
    {
      CountSnoc(h, e, x);
    }
  }

  /** Recording one enabled event keeps the history admissible and moves the
      group by that event's step. */
  lemma Extend(h: seq<GroupEvent>, e: GroupEvent)
    requires Admissible(h) && Enabled(h, e)
    ensures Admissible(h + [e]) && Replay(h + [e]) == Step(Replay(h), e)
    ensures forall x :: Count(h + [e], x) == Count(h, x) + (if e == x then 1 else 0)
  {
    assert (h + [e])[..|h + [e]| - 1] == h;
    CountSnocAll(h, e);
  }

  /** The group counts the immediate tasks not yet run plus the timed wrappers
      not yet deleted, and holds one reference per live wrapper beyond its own. */
  lemma {:induction false} ReplayCounts(h: seq<GroupEvent>)
    ensures Replay(h) == GroupState(
              Count(h, AsyncSubmitted) - Count(h, AsyncRan) + Count(h, TimerArmed) - Count(h, TimerDeleted),
              1 + Count(h, TimerArmed) - Count(h, TimerDeleted))
    decreases |h|
  {
    if h != [] {
      var p := h[..|h| - 1];
      assert h == p + [h[|h| - 1]];
      ReplayCounts(p);
      CountSnocAll(p, h[|h| - 1]);
    }
  }

  /** In an admissible history each wrapper is deleted only after its task ran,
      which was after it was created, and no immediate task runs more often than
      tasks were submitted. */
  lemma {:induction false} AdmissibleOrder(h: seq<GroupEvent>)
    requires Admissible(h)
    ensures Count(h, AsyncRan) <= Count(h, AsyncSubmitted)
    ensures Count(h, TimerDeleted) <= Count(h, TimerRan) <= Count(h, TimerArmed)
    decreases |h|
  {
    if h != [] {
      var p := h[..|h| - 1];
      assert h == p + [h[|h| - 1]];
      AdmissibleOrder(p);
      CountSnocAll(p, h[|h| - 1]);
    }
  }

  /** The group's count never goes negative and the pool's own reference is
      never given away while work comes and goes. */
  lemma GroupBounded(h: seq<GroupEvent>)
    requires Admissible(h)
    ensures Replay(h).outstanding >= 0 && Replay(h).refs >= 1
  {
    ReplayCounts(h);
    AdmissibleOrder(h);
  }

  /** The group is empty exactly when every submitted task ran and every wrapper
      was deleted -- and then every timed task has run, and the group is back to
      the single reference of the pool. */
  lemma EmptyIffDrained(h: seq<GroupEvent>)
    requires Admissible(h)
    ensures Replay(h).outstanding == 0 <==>
              Count(h, AsyncRan) == Count(h, AsyncSubmitted) && Count(h, TimerDeleted) == Count(h, TimerArmed)
    ensures Replay(h).outstanding == 0 ==>
              Count(h, TimerRan) == Count(h, TimerArmed) && Replay(h).refs == 1
  {
    ReplayCounts(h);
    AdmissibleOrder(h);
  }

  /** `pool_group`: its queue and dispatch group, and the dispatch library's state
      of both.  `pendingAsync` and `liveTimers` count the heap wrappers of
      immediate and timed tasks still alive; `history` records what happened and
      `timerDelays` the nanosecond delay each timer was set to, in order. */
  class PoolGroup {
    const n: int
    const queue: QueueKind
    var queueRefs: int
    var outstanding: int
    var groupRefs: int
    var pendingAsync: int
    var liveTimers: int
    ghost var history: seq<GroupEvent>
    ghost var timerDelays: seq<int>

    ghost predicate Valid()
      reads this
    {
      && Admissible(history)
      && GroupState(outstanding, groupRefs) == Replay(history)
      && pendingAsync == Count(history, AsyncSubmitted) - Count(history, AsyncRan)
      && liveTimers == Count(history, TimerArmed) - Count(history, TimerDeleted)
      && Count(history, TimerRan) == Count(history, TimerDeleted)
    }

    function Group(): GroupState
      reads this
    {
      GroupState(outstanding, groupRefs)
    }

    /** `pool_group(N, q)`: adopts `q`, retains it once more when `N == 1`, and
        creates the dispatch group. */
    constructor (n: int, queue: QueueKind)
      ensures Valid() && this.n == n && this.queue == queue
      ensures queueRefs == InitialQueueReferences(n)
      ensures history == [] && timerDelays == [] && Group() == GroupState(0, 1)
    {
      this.n, this.queue := n, queue;
      queueRefs := 1;
      outstanding, groupRefs := 0, 1;
      pendingAsync, liveTimers := 0, 0;
      history, timerDelays := [], [];
      new;
      if n == 1 {
        queueRefs := queueRefs + 1;
      }
    }

    /** `submit`: a heap wrapper handed to `dispatch_group_async_f`. */
    method Submit()
      requires Valid()
      modifies this`outstanding, this`pendingAsync, this`history
      ensures Valid() && history == old(history) + [AsyncSubmitted]
      ensures Group() == AfterAsyncSubmit(old(Group()))
      ensures pendingAsync == old(pendingAsync) + 1 && liveTimers == old(liveTimers)
    {
      outstanding := outstanding + 1;
      pendingAsync := pendingAsync + 1;
      history := history + [AsyncSubmitted];
      Extend(old(history), AsyncSubmitted);
    }

    /** `callback`: runs one submitted task and deletes its wrapper; the group is
        left when it returns. */
    method Callback()
      requires Valid() && pendingAsync > 0
      modifies this`outstanding, this`pendingAsync, this`history
      ensures Valid() && history == old(history) + [AsyncRan]
      ensures Group() == AfterAsyncRun(old(Group()))
      ensures pendingAsync == old(pendingAsync) - 1 && liveTimers == old(liveTimers)
    {
      outstanding := outstanding - 1;
      pendingAsync := pendingAsync - 1;
      history := history + [AsyncRan];
      Extend(old(history), AsyncRan);
    }

    /** A `time_fnc_wrapper` created for `durationNs` (retain and enter the group,
        set its timer), then given its context and handler and resumed, as
        `submit_at` and `submit_after` both do. */
    method ArmTimer(durationNs: int)
      requires Valid()
      modifies this`outstanding, this`groupRefs, this`liveTimers, this`history, this`timerDelays
      ensures Valid() && history == old(history) + [TimerArmed]
      ensures Group() == AfterWrapperCreated(old(Group()))
      ensures liveTimers == old(liveTimers) + 1 && pendingAsync == old(pendingAsync)
      ensures timerDelays == old(timerDelays) + [durationNs]
    {
      groupRefs := groupRefs + 1;
      outstanding := outstanding + 1;
      liveTimers := liveTimers + 1;
      history := history + [TimerArmed];
      timerDelays := timerDelays + [durationNs];
      Extend(old(history), TimerArmed);
    }

    /** `submit_at`: a timer for the time left until `deadline`. */
    method SubmitAt(deadline: int, now: int)
      requires Valid()
      modifies this`outstanding, this`groupRefs, this`liveTimers, this`history, this`timerDelays
      ensures Valid() && history == old(history) + [TimerArmed]
      ensures Group() == AfterWrapperCreated(old(Group()))
      ensures liveTimers == old(liveTimers) + 1 && pendingAsync == old(pendingAsync)
      ensures timerDelays == old(timerDelays)
                             + [AbsoluteToRelativeNs(deadline, now, SystemClockNanosPerTick)]
    {
      var durationNs := AbsoluteToRelativeNs(deadline, now, SystemClockNanosPerTick);
      ArmTimer(durationNs);
    }

    /** `submit_after`: a timer for `delay`. */
    method SubmitAfter(delay: int)
      requires Valid()
      modifies this`outstanding, this`groupRefs, this`liveTimers, this`history, this`timerDelays
      ensures Valid() && history == old(history) + [TimerArmed]
      ensures Group() == AfterWrapperCreated(old(Group()))
      ensures liveTimers == old(liveTimers) + 1 && pendingAsync == old(pendingAsync)
      ensures timerDelays == old(timerDelays)
                             + [RelativeToRelativeNs(delay, SystemClockNanosPerTick)]
    {
      var durationNs := RelativeToRelativeNs(delay, SystemClockNanosPerTick);
      ArmTimer(durationNs);
    }

    /** `time_callback`: runs the timed task, then deletes its wrapper, whose
        destructor cancels the timer, leaves the group and releases it. */
    method TimeCallback()
      requires Valid() && liveTimers > 0
      modifies this`outstanding, this`groupRefs, this`liveTimers, this`history
      ensures Valid() && history == old(history) + [TimerRan, TimerDeleted]
      ensures Group() == AfterWrapperDeleted(old(Group()))
      ensures liveTimers == old(liveTimers) - 1 && pendingAsync == old(pendingAsync)
    {
      Extend(history, TimerRan);
      history := history + [TimerRan];
      ghost var ran := history;
      groupRefs := groupRefs - 1;
      outstanding := outstanding - 1;
      liveTimers := liveTimers - 1;
      Extend(ran, TimerDeleted);
      history := history + [TimerDeleted];
    }

    /** The destructor: `dispatch_group_wait` until the group is empty, then the
        `unique_dispatch_group` and `unique_dispatch_queue` each release once.
        The wait is modelled by the queue running every outstanding task and
        firing every pending timer; nothing new is submitted meanwhile. */
    method Destroy()
      requires Valid()
      modifies this`outstanding, this`groupRefs, this`pendingAsync, this`liveTimers, this`history,
               this`queueRefs
      ensures outstanding == 0 && pendingAsync == 0 && liveTimers == 0
      ensures groupRefs == 0 && queueRefs == old(queueRefs) - 1
      ensures Admissible(history) && old(history) <= history
      ensures Count(history, AsyncSubmitted) == Count(old(history), AsyncSubmitted)
      ensures Count(history, TimerArmed) == Count(old(history), TimerArmed)
      ensures Count(history, AsyncRan) == Count(history, AsyncSubmitted)
      ensures Count(history, TimerRan) == Count(history, TimerArmed)
    {
      while outstanding > 0
        invariant Valid() && old(history) <= history
        invariant Count(history, AsyncSubmitted) == Count(old(history), AsyncSubmitted)
        invariant Count(history, TimerArmed) == Count(old(history), TimerArmed)
        invariant queueRefs == old(queueRefs)
        decreases outstanding
      {
        GroupBounded(history);
        ReplayCounts(history);
        AdmissibleOrder(history);
        if pendingAsync > 0 {
          Callback();
        } else {
          TimeCallback();
        }
      }
      GroupBounded(history);
      ReplayCounts(history);
      EmptyIffDrained(history);
      groupRefs := groupRefs - 1;
      queueRefs := queueRefs - 1;
    }
  }

  /** `thread_pool`: a shared pointer to one `pool_group`. */
  class ThreadPool {
    const pool: PoolGroup

    ghost predicate Valid()
      reads this, pool
    {
      pool.Valid()
    }

    /** The default constructor: the global queue, as `N = 0`. */
    constructor Default()
      ensures Valid() && fresh(pool) && pool.n == 0 && pool.queue == GlobalConcurrent
      ensures pool.history == [] && pool.timerDelays == [] && pool.Group() == GroupState(0, 1)
      ensures pool.pendingAsync == 0 && pool.liveTimers == 0
      ensures pool.queueRefs == InitialQueueReferences(0)
    {
      pool := new PoolGroup(0, GlobalConcurrent);
    }

    /** `thread_pool(N)`: a fresh serial queue when `N == 1`, else the global queue. */
    constructor (n: int)
      ensures Valid() && fresh(pool) && pool.n == n && pool.queue == QueueFor(n)
      ensures pool.history == [] && pool.timerDelays == [] && pool.Group() == GroupState(0, 1)
      ensures pool.pendingAsync == 0 && pool.liveTimers == 0
      ensures pool.queueRefs == InitialQueueReferences(n)
    {
      pool := new PoolGroup(n, QueueFor(n));
    }

    /** `add`. */
    method Add()
      requires Valid()
      modifies pool
      ensures Valid() && pool.history == old(pool.history) + [AsyncSubmitted]
      ensures pool.Group() == AfterAsyncSubmit(old(pool.Group()))
      ensures pool.pendingAsync == old(pool.pendingAsync) + 1 && pool.liveTimers == old(pool.liveTimers)
      ensures pool.queueRefs == old(pool.queueRefs) && pool.timerDelays == old(pool.timerDelays)
    {
      pool.Submit();
    }

    /** `add_at`. */
    method AddAt(deadline: int, now: int)
      requires Valid()
      modifies pool
      ensures Valid() && pool.history == old(pool.history) + [TimerArmed]
      ensures pool.Group() == AfterWrapperCreated(old(pool.Group()))
      ensures pool.liveTimers == old(pool.liveTimers) + 1 && pool.pendingAsync == old(pool.pendingAsync)
      ensures pool.queueRefs == old(pool.queueRefs)
      ensures pool.timerDelays == old(pool.timerDelays)
                                  + [AbsoluteToRelativeNs(deadline, now, SystemClockNanosPerTick)]
    {
      pool.SubmitAt(deadline, now);
    }

    /** `add_after`. */
    method AddAfter(delay: int)
      requires Valid()
      modifies pool
      ensures Valid() && pool.history == old(pool.history) + [TimerArmed]
      ensures pool.Group() == AfterWrapperCreated(old(pool.Group()))
      ensures pool.liveTimers == old(pool.liveTimers) + 1 && pool.pendingAsync == old(pool.pendingAsync)
      ensures pool.queueRefs == old(pool.queueRefs)
      ensures pool.timerDelays == old(pool.timerDelays)
                                  + [RelativeToRelativeNs(delay, SystemClockNanosPerTick)]
    {
      pool.SubmitAfter(delay);
    }

    /** `uninitiated_task_count`: this pool does not track it and always answers 0,
        whatever work is pending. */
    function UninitiatedTaskCount(): (c: int)
      reads this, pool
      requires Valid()
      ensures c == 0
    {
      0
    }

    /** Dropping the last `thread_pool` destroys its `pool_group`. */
    method Destroy()
      requires Valid()
      modifies pool
      ensures pool.outstanding == 0 && pool.pendingAsync == 0 && pool.liveTimers == 0
      ensures pool.groupRefs == 0 && pool.queueRefs == old(pool.queueRefs) - 1
      ensures Admissible(pool.history) && old(pool.history) <= pool.history
      ensures Count(pool.history, AsyncSubmitted) == Count(old(pool.history), AsyncSubmitted)
      ensures Count(pool.history, TimerArmed) == Count(old(pool.history), TimerArmed)
      ensures Count(pool.history, AsyncRan) == Count(pool.history, AsyncSubmitted)
      ensures Count(pool.history, TimerRan) == Count(pool.history, TimerArmed)
      ensures pool.timerDelays == old(pool.timerDelays)
    {
      pool.Destroy();
    }
  }

  /** A client's call on a `thread_pool`: `add`, `add_at` or `add_after`. */
  datatype Request = AddNow | AddAtTime(deadline: int, now: int) | AddAfterDelay(delay: int)

  /** The whole life of a `thread_pool(N)`: construct it, make the `requests`,
      drop it.  Every request was served, the group is gone, and for `N == 1`
      the serial queue keeps the one reference the pool retained and never gave
      back; for every other `N` the pool holds nothing any more. */
  method QueueReferencesAfterDestroy(n: int, requests: seq<Request>) returns (tp: ThreadPool)
    ensures tp.pool.queueRefs == (if n == 1 then 1 else 0)
    ensures tp.pool.groupRefs == 0 && tp.pool.outstanding == 0
    ensures Count(tp.pool.history, AsyncSubmitted) + Count(tp.pool.history, TimerArmed) == |requests|
    ensures Count(tp.pool.history, AsyncRan) == Count(tp.pool.history, AsyncSubmitted)
    ensures Count(tp.pool.history, TimerRan) == Count(tp.pool.history, TimerArmed)
  {
    tp := new ThreadPool(n);
    var i := 0;
    while i < |requests|
      invariant 0 <= i <= |requests|
      invariant fresh(tp.pool) && tp.Valid()
      invariant tp.pool.queueRefs == InitialQueueReferences(n)
      invariant Count(tp.pool.history, AsyncSubmitted) + Count(tp.pool.history, TimerArmed) == i
    {
      ghost var before := tp.pool.history;
      match requests[i] {
        case AddNow =>
          tp.Add();
          CountSnocAll(before, AsyncSubmitted);
        case AddAtTime(deadline, now) =>
          tp.AddAt(deadline, now);
          CountSnocAll(before, TimerArmed);
        case AddAfterDelay(delay) =>
          tp.AddAfter(delay);
          CountSnocAll(before, TimerArmed);
      }
      i := i + 1;
    }
    tp.Destroy();
  }
}
