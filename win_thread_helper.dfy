/** Model of the Windows thread-pool helpers: the deadline and delay
    conversions to the millisecond `DWORD` a timer-queue timer takes, and the
    task-count bookkeeping of `functional_pool` and `functional_timer_pool`.
    Time points and durations are integer counts of `system_clock` ticks; the
    current time is a parameter. */
module WinThreadHelper {

  import opened IntArith

  /** `DWORD` is an unsigned 32-bit integer; a conversion to it is taken modulo this. */
  const DwordModulus: int := 0x1_0000_0000

  /** MSVC's `system_clock` counts 100-nanosecond ticks: 10 000 of them per millisecond. */
  const SystemClockTicksPerMilli: int := 10_000

  /** C++ integer division, which truncates toward zero (Dafny's `/` is Euclidean):
      the quotient is the whole number of `b`s in `a`, rounded toward zero. */
  function TruncDiv(a: int, b: int): (q: int)
    requires b > 0
    ensures a >= 0 ==> 0 <= q * b <= a < q * b + b
    ensures a < 0 ==> q * b - b < a <= q * b <= 0
  {
    if a >= 0 then
      DivBounds(a, b);
      a / b
    else
      DivBounds(-a, b);
      NegateProduct((-a) / b, b);
      -((-a) / b)
  }

  /** `absolute_to_relative_milli`: the time left until `deadline`, truncated to
      whole milliseconds, clamped at zero and cast to `DWORD`. */
  function AbsoluteToRelativeMilli(deadline: int, now: int, ticksPerMilli: int): (ms: int)
    requires ticksPerMilli > 0
    ensures 0 <= ms < DwordModulus
    ensures deadline - now < ticksPerMilli ==> ms == 0
    ensures deadline >= now ==> ms == ((deadline - now) / ticksPerMilli) % DwordModulus
  {
    var left := TruncDiv(deadline - now, ticksPerMilli);
    (if left > 0 then left else 0) % DwordModulus
  }

  /** `relative_to_relative_milli`: the delay truncated to whole milliseconds (in
      `long long`) and cast to `DWORD`.  Unlike the absolute variant nothing is
      clamped: a negative delay wraps around. */
  function RelativeToRelativeMilli(delay: int, ticksPerMilli: int): (ms: int)
    requires ticksPerMilli > 0
    ensures 0 <= ms < DwordModulus
    ensures delay >= 0 ==> ms == (delay / ticksPerMilli) % DwordModulus
  {
    TruncDiv(delay, ticksPerMilli) % DwordModulus
  }

  /** For a deadline not in the past, the absolute conversion is the relative
      conversion of the time left. */
  lemma AbsoluteIsRelativeOfTimeLeft(deadline: int, now: int, ticksPerMilli: int)
    requires ticksPerMilli > 0 && deadline >= now
    ensures AbsoluteToRelativeMilli(deadline, now, ticksPerMilli)
            == RelativeToRelativeMilli(deadline - now, ticksPerMilli)
  {
  }

  /** When the time left fits in a `DWORD` of milliseconds, the timer is armed for
      the time left rounded down to a whole millisecond: never longer, and less
      than a millisecond shorter. */
  lemma AbsoluteRoundsDown(deadline: int, now: int, ticksPerMilli: int)
    requires ticksPerMilli > 0 && deadline >= now
    requires (deadline - now) / ticksPerMilli < DwordModulus
    ensures var ms := AbsoluteToRelativeMilli(deadline, now, ticksPerMilli);
            ms * ticksPerMilli <= deadline - now < ms * ticksPerMilli + ticksPerMilli
  {
    var left := TruncDiv(deadline - now, ticksPerMilli);
    assert left == (deadline - now) / ticksPerMilli;
    assert 0 <= left < DwordModulus;
  }

  /** A deadline exactly 2^32 milliseconds ahead wraps to a timer that fires at
      once: the `DWORD` cast is not clamped. */
  lemma FarDeadlineWraps(now: int, ticksPerMilli: int)
    requires ticksPerMilli > 0
    ensures AbsoluteToRelativeMilli(now + DwordModulus * ticksPerMilli, now, ticksPerMilli) == 0
  {
    var d := DwordModulus * ticksPerMilli;
    MulNonNegative(DwordModulus, ticksPerMilli);
    MulDivCancel(DwordModulus, ticksPerMilli);
    assert TruncDiv(d, ticksPerMilli) == DwordModulus;
  }

  /** A delay of one millisecond or more into the past is not clamped as a past
      deadline is: it wraps to a `DWORD` close to 2^32 milliseconds. */
  lemma NegativeDelayWraps(delay: int, now: int, ticksPerMilli: int)
    requires ticksPerMilli > 0
    requires -DwordModulus * ticksPerMilli < delay <= -ticksPerMilli
    ensures AbsoluteToRelativeMilli(now + delay, now, ticksPerMilli) == 0
    ensures RelativeToRelativeMilli(delay, ticksPerMilli)
            == DwordModulus - (-delay) / ticksPerMilli
    ensures RelativeToRelativeMilli(delay, ticksPerMilli) > 0
  {
    var q := (-delay) / ticksPerMilli;
    assert 1 <= q by {
      assert ticksPerMilli <= -delay;
      DivAtLeastOne(-delay, ticksPerMilli);
    }
    assert q < DwordModulus by {
      DivBelow(-delay, ticksPerMilli, DwordModulus);
    }
    assert TruncDiv(delay, ticksPerMilli) == -q;
    assert (-q) % DwordModulus == DwordModulus - q;
  }

  // ---------------------------------------------------------------------
  // Task-count bookkeeping of `functional_pool`.

  /** What happens to one pool: a task is accepted (`submit`, `submit_internal`),
      its callback starts it (`start_task`), or its body returned (`finish_task`). */
  datatype PoolEvent = Submitted | Started | Finished

  /** `m_uninitiated_task_count` and `m_unfinished_task_count`. */
  datatype Counters = Counters(uninitiated: int, unfinished: int)

  /** `submit` and `submit_internal`: both counters go up by one. */
  function AfterSubmit(c: Counters): (r: Counters)
    ensures r.uninitiated == c.uninitiated + 1 && r.unfinished == c.unfinished + 1
  {
    Counters(c.uninitiated + 1, c.unfinished + 1)
  }

  /** `start_task`: one fewer task waits to start; the unfinished count is unchanged. */
  function AfterStart(c: Counters): (r: Counters)
    ensures r.uninitiated == c.uninitiated - 1 && r.unfinished == c.unfinished
  {
    Counters(c.uninitiated - 1, c.unfinished)
  }

  /** `finish_task`: one fewer unfinished task; waiters are notified exactly when
      none is left. */
  function AfterFinish(c: Counters): (r: (Counters, bool))
    ensures r.0.uninitiated == c.uninitiated && r.0.unfinished == c.unfinished - 1
    ensures r.1 <==> r.0.unfinished == 0
  {
    var d := Counters(c.uninitiated, c.unfinished - 1);
    (d, d.unfinished == 0)
  }

  function Step(c: Counters, e: PoolEvent): Counters
  {
    match e
    case Submitted => AfterSubmit(c)
    case Started => AfterStart(c)
    case Finished => AfterFinish(c).0
  }

  /** The counters after the events of `h`, from the constructors' zeros. */
  function Replay(h: seq<PoolEvent>): Counters
    decreases |h|
  {
    if h == [] then Counters(0, 0) else Step(Replay(h[..|h| - 1]), h[|h| - 1])
  }

  /** How many times `e` occurs in `h`. */
  function Count(h: seq<PoolEvent>, e: PoolEvent): nat
  {
    multiset(h)[e]
  }

  /** `run` may start a task only when one was accepted and not yet started, and
      finishes only a task it started. */
  predicate Enabled(h: seq<PoolEvent>, e: PoolEvent)
  {
    match e
    case Submitted => true
    case Started => Count(h, Started) < Count(h, Submitted)
    case Finished => Count(h, Finished) < Count(h, Started)
  }

  /** Every event of `h` was enabled when it happened. */
  predicate Admissible(h: seq<PoolEvent>)
    decreases |h|
  {
    h == [] || (Admissible(h[..|h| - 1]) && Enabled(h[..|h| - 1], h[|h| - 1]))
  }

  lemma CountSnoc(h: seq<PoolEvent>, e: PoolEvent, x: PoolEvent)
    ensures Count(h + [e], x) == Count(h, x) + (if e == x then 1 else 0)
  {
    assert multiset(h + [e]) == multiset(h) + multiset{e};
  }

  /** The counters count: tasks accepted but not started, and tasks accepted but
      not finished -- whatever the order of the events. */
  lemma {:induction false} ReplayCounts(h: seq<PoolEvent>)
    ensures Replay(h) == Counters(Count(h, Submitted) - Count(h, Started),
                                  Count(h, Submitted) - Count(h, Finished))
    decreases |h|
  {
    if h != [] {
      var p := h[..|h| - 1];
      assert h == p + [h[|h| - 1]];
      ReplayCounts(p);
      CountSnoc(p, h[|h| - 1], Submitted);
      CountSnoc(p, h[|h| - 1], Started);
      CountSnoc(p, h[|h| - 1], Finished);
    }
  }

  /** In an admissible history no task finishes more often than tasks start, and
      none starts more often than tasks are accepted. */
  lemma {:induction false} AdmissibleOrder(h: seq<PoolEvent>)
    requires Admissible(h)
    ensures Count(h, Finished) <= Count(h, Started) <= Count(h, Submitted)
    decreases |h|
  {
    if h != [] {
      var p := h[..|h| - 1];
      assert h == p + [h[|h| - 1]];
      AdmissibleOrder(p);
      CountSnoc(p, h[|h| - 1], Submitted);
      CountSnoc(p, h[|h| - 1], Started);
      CountSnoc(p, h[|h| - 1], Finished);
    }
  }

  /** When every task runs once, after it was accepted, neither counter goes
      negative and no more tasks wait to start than are unfinished. */
  lemma CountersBounded(h: seq<PoolEvent>)
    requires Admissible(h)
    ensures 0 <= Replay(h).uninitiated <= Replay(h).unfinished
  {
    ReplayCounts(h);
    AdmissibleOrder(h);
  }

  /** The unfinished count is zero exactly when every accepted task has finished,
      and then no task waits to start either. */
  lemma DrainedIffAllFinished(h: seq<PoolEvent>)
    requires Admissible(h)
    ensures Replay(h).unfinished == 0 <==> Count(h, Finished) == Count(h, Submitted)
    ensures Replay(h).unfinished == 0 ==> Replay(h).uninitiated == 0
  {
    ReplayCounts(h);
    AdmissibleOrder(h);
  }

  /** `finish_task` notifies the waiters exactly when the task finishing is the
      last accepted task still unfinished. */
  lemma FinishNotifiesWhenDrained(h: seq<PoolEvent>)
    requires Admissible(h + [Finished])
    ensures AfterFinish(Replay(h)).1 <==> Count(h, Finished) + 1 == Count(h, Submitted)
  {
    ReplayCounts(h);
  }

  /** `functional_pool`: the counters, and the history of events that produced
      them.  The Win32 pool, cleanup group and environment are not modelled. */
  class FunctionalPool {
    var uninitiated: int
    var unfinished: int
    ghost var history: seq<PoolEvent>

    ghost predicate Valid()
      reads this
    {
      Admissible(history) && Counters(uninitiated, unfinished) == Replay(history)
    }

    function Snapshot(): Counters
      reads this
    {
      Counters(uninitiated, unfinished)
    }

    /** The default constructor (the process's default Win32 pool). */
    constructor ()
      ensures Valid() && history == [] && Snapshot() == Counters(0, 0)
    {
      uninitiated, unfinished := 0, 0;
      history := [];
    }

    /** `functional_pool(num_threads)`: a private Win32 pool sized `num_threads`. */
    constructor WithThreads(numThreads: int)
      ensures Valid() && history == [] && Snapshot() == Counters(0, 0)
    {
      uninitiated, unfinished := 0, 0;
      history := [];
    }

    /** A Valid pool's counters are bounded as `CountersBounded` says. */
    lemma Bounded()
      requires Valid()
      ensures 0 <= uninitiated <= unfinished
    {
      CountersBounded(history);
    }

    /** `submit`: the unfinished count is raised first, then the uninitiated one. */
    method Submit()
      requires Valid()
      modifies this
      ensures Valid() && history == old(history) + [Submitted]
      ensures Snapshot() == AfterSubmit(old(Snapshot()))
    {
      unfinished := unfinished + 1;
      uninitiated := uninitiated + 1;
      history := history + [Submitted];
      assert history[..|history| - 1] == old(history);
    }

    method StartTask()
      requires Valid() && Enabled(history, Started)
      modifies this
      ensures Valid() && history == old(history) + [Started]
      ensures Snapshot() == AfterStart(old(Snapshot()))
    {
      uninitiated := uninitiated - 1;
      history := history + [Started];
      assert history[..|history| - 1] == old(history);
    }

    method FinishTask() returns (notified: bool)
      requires Valid() && Enabled(history, Finished)
      modifies this
      ensures Valid() && history == old(history) + [Finished]
      ensures (Snapshot(), notified) == AfterFinish(old(Snapshot()))
    {
      unfinished := unfinished - 1;
      notified := unfinished == 0;
      history := history + [Finished];
      assert history[..|history| - 1] == old(history);
    }

    /** `run`: the callback of one accepted task starts it, runs its body, then
        finishes it. */
    method Run()
      requires Valid() && Enabled(history, Started)
      modifies this
      ensures Valid() && history == old(history) + [Started, Finished]
      ensures Snapshot() == AfterFinish(AfterStart(old(Snapshot()))).0
    {
      StartTask();
      // the task's own body runs here
      CountSnoc(old(history), Started, Started);
      CountSnoc(old(history), Started, Finished);
      AdmissibleOrder(old(history));
      var _ := FinishTask();
    }

    /** `wait`: returns once no accepted task is unfinished.  The blocking on the
        condition variable is modelled by the workers completing the outstanding
        tasks; no new task is accepted meanwhile. */
    method Wait()
      requires Valid()
      modifies this
      ensures Valid() && unfinished == 0 && uninitiated == 0
      ensures old(history) <= history
      ensures Count(history, Submitted) == Count(old(history), Submitted)
    {
      while unfinished > 0
        invariant Valid() && old(history) <= history
        invariant Count(history, Submitted) == Count(old(history), Submitted)
        decreases uninitiated + unfinished
      {
        Bounded();
        ReplayCounts(history);
        ghost var before := history;
        if unfinished > uninitiated {
          var _ := FinishTask();
          CountSnoc(before, Finished, Submitted);
        } else {
          Run();
          CountSnoc(before, Started, Submitted);
          CountSnoc(before + [Started], Finished, Submitted);
          assert history == before + [Started] + [Finished];
        }
      }
      Bounded();
      DrainedIffAllFinished(history);
    }

    /** The destructor: waits, then closes the cleanup group's members. */
    method Destroy()
      requires Valid()
      modifies this
      ensures Valid() && unfinished == 0 && uninitiated == 0
      ensures Count(history, Submitted) == Count(old(history), Submitted)
    {
      Wait();
    }

    /** `uninitiated_task_count`: the number of accepted tasks not yet started. */
    function UninitiatedTaskCount(): (n: int)
      reads this
      requires Valid()
      ensures n >= 0 && n == Count(history, Submitted) - Count(history, Started)
    {
      ReplayCounts(history);
      CountersBounded(history);
      uninitiated
    }
  }

  /** `functional_timer_pool`: a `functional_pool` plus a timer queue whose timers
      run their task through the same `run`.  The ghost `timerDelays` lists the
      millisecond delays given to `CreateTimerQueueTimer`, in order. */
  class FunctionalTimerPool {
    const pool: FunctionalPool
    ghost var timerDelays: seq<int>

    ghost predicate Valid()
      reads this, pool
    {
      pool.Valid()
    }

    constructor ()
      ensures Valid() && fresh(pool) && pool.history == [] && timerDelays == []
    {
      pool := new FunctionalPool();
      timerDelays := [];
    }

    constructor WithThreads(numThreads: int)
      ensures Valid() && fresh(pool) && pool.history == [] && timerDelays == []
    {
      pool := new FunctionalPool.WithThreads(numThreads);
      timerDelays := [];
    }

    /** `submit_internal`: counts the task exactly as `submit` does, and arms a
        one-shot timer for `msec` milliseconds. */
    method SubmitInternal(msec: int)
      requires Valid()
      modifies pool, this`timerDelays
      ensures Valid() && pool.history == old(pool.history) + [Submitted]
      ensures pool.Snapshot() == AfterSubmit(old(pool.Snapshot()))
      ensures timerDelays == old(timerDelays) + [msec]
    {
      pool.Submit();
      timerDelays := timerDelays + [msec];
    }

    /** `submit_at`: a timer for the time left until `deadline`. */
    method SubmitAt(deadline: int, now: int)
      requires Valid()
      modifies pool, this`timerDelays
      ensures Valid() && pool.history == old(pool.history) + [Submitted]
      ensures pool.Snapshot() == AfterSubmit(old(pool.Snapshot()))
      ensures timerDelays == old(timerDelays)
                             + [AbsoluteToRelativeMilli(deadline, now, SystemClockTicksPerMilli)]
    {
      var msec := AbsoluteToRelativeMilli(deadline, now, SystemClockTicksPerMilli);
      SubmitInternal(msec);
    }

    /** `submit_after`: a timer for `delay`. */
    method SubmitAfter(delay: int)
      requires Valid()
      modifies pool, this`timerDelays
      ensures Valid() && pool.history == old(pool.history) + [Submitted]
      ensures pool.Snapshot() == AfterSubmit(old(pool.Snapshot()))
      ensures timerDelays == old(timerDelays)
                             + [RelativeToRelativeMilli(delay, SystemClockTicksPerMilli)]
    {
      var msec := RelativeToRelativeMilli(delay, SystemClockTicksPerMilli);
      SubmitInternal(msec);
    }

    /** The destructor: its own `wait`, then the base destructor's. */
    method Destroy()
      requires Valid()
      modifies pool
      ensures Valid() && pool.unfinished == 0 && pool.uninitiated == 0
      ensures Count(pool.history, Submitted) == Count(old(pool.history), Submitted)
    {
      pool.Wait();
      pool.Destroy();
    }
  }
}
