/** A sleeping task sleeps: not dispatched before its time, runnable at it.  An exited one does not come back. */
module SchedulerSleep {
  import opened Bytes
  import opened Scheduler
  import opened SchedulerAccounting
  import opened SchedulerFairness

  // ----- Who is picked -----

  predicate SomeRunnable(tasks: seq<Task>)
  {
    exists u :: 0 <= u < |tasks| && tasks[u].state == Runnable
  }

  /** Picking finds a runnable task if there is one, and otherwise stays where it is. */
  lemma PicksRunnable(tasks: seq<Task>, current: nat)
    requires |tasks| == MAX_TASKS && current < MAX_TASKS
    ensures SomeRunnable(tasks) ==> tasks[PickFrom(tasks, current, 1)].state == Runnable
    ensures !SomeRunnable(tasks) ==> PickFrom(tasks, current, 1) == current
  {
    hide PickFrom;
    if SomeRunnable(tasks) {
      var u :| 0 <= u < |tasks| && tasks[u].state == Runnable;
      FindsRunnable(tasks, current, u);
    } else {
      FindsNone(tasks, current, 1);
    }
  }

  lemma FindsRunnable(tasks: seq<Task>, current: nat, u: nat)
    requires |tasks| == MAX_TASKS && current < MAX_TASKS && u < MAX_TASKS && tasks[u].state == Runnable
    ensures tasks[PickFrom(tasks, current, 1)].state == Runnable
  {
    RunnableFrom(tasks, current, u, 1);
  }

  lemma {:induction false} RunnableFrom(tasks: seq<Task>, current: nat, u: nat, o: nat)
    requires |tasks| == MAX_TASKS && current < MAX_TASKS && u < MAX_TASKS && tasks[u].state == Runnable
    requires 1 <= o <= Distance(current, u)
    ensures tasks[PickFrom(tasks, current, o)].state == Runnable
    decreases MAX_TASKS - o
  {
    if tasks[(current + o) % MAX_TASKS].state != Runnable {
      RunnableFrom(tasks, current, u, o + 1);
    }
  }

  lemma {:induction false} FindsNone(tasks: seq<Task>, current: nat, o: nat)
    requires |tasks| == MAX_TASKS && current < MAX_TASKS && 1 <= o <= MAX_TASKS + 1 && !SomeRunnable(tasks)
    ensures PickFrom(tasks, current, o) == current
    decreases MAX_TASKS + 1 - o
  {
    if o <= MAX_TASKS {
      FindsNone(tasks, current, o + 1);
    }
  }

  // ----- Ticks, from the end of a run -----

  lemma {:induction false} TicksSnoc(events: seq<Event>, from: nat)
    requires events != [] && Consecutive(events, from) && from < TWO32
    ensures var init, last := events[..|events| - 1], events[|events| - 1];
      && Consecutive(init, from) && Ticks(events) == Ticks(init) + (if last.TickEvent? then 1 else 0)
      && (last.TickEvent? ==> last.now == (from + Ticks(init)) % TWO32)
  {
    if |events| > 1 {
      var rest := events[1..];
      TicksSnoc(rest, if events[0].TickEvent? then (from + 1) % TWO32 else from);
      var init := events[..|events| - 1];
      assert init[1..] == rest[..|rest| - 1] && init[0] == events[0];
    }
  }

  // ----- Sleeping -----

  /** While it is current the task does nothing but wait, as the sleep call does. */
  predicate Waits(s: Sched, events: seq<Event>, t: nat)
    requires Shaped(s)
  {
    forall i :: 0 <= i < |events| && Run(s, events[..i]).current == t ==> events[i].TickEvent?
  }

  lemma WaitsInit(s: Sched, events: seq<Event>, t: nat)
    requires Shaped(s) && events != [] && Waits(s, events, t)
    ensures Waits(s, events[..|events| - 1], t)
    ensures Run(s, events[..|events| - 1]).current == t ==> events[|events| - 1].TickEvent?
  {
    hide Run;
    var init := events[..|events| - 1];
    forall i | 0 <= i < |init| && Run(s, init[..i]).current == t ensures init[i].TickEvent? {
      assert init[..i] == events[..i] && init[i] == events[i];
    }
  }

  /** What the others do leaves a sleeper alone. */
  lemma OthersSpare(s: Sched, e: Event, t: nat)
    requires Shaped(s) && t < MAX_TASKS && s.tasks[t].state == Sleeping && t != s.current && !e.TickEvent?
    ensures Shaped(Apply(s, e)) && Apply(s, e).tasks[t] == s.tasks[t]
  {
    hide FindProcess, FreeProcess;
    ApplyShaped(s, e);
  }

  /** Only a tick at or after its time wakes a sleeper. */
  lemma TickSpares(s: Sched, now: nat, t: nat)
    requires InUse(s) && t < MAX_TASKS && s.tasks[t].state == Sleeping
    ensures Shaped(Tick(s, now))
    ensures Tick(s, now).tasks[t] == if now >= s.tasks[t].wake then Wake(s.tasks[t], now) else s.tasks[t]
    ensures Tick(s, now).tasks[t].state == if now < s.tasks[t].wake then Sleeping else Runnable
  {
    hide PickFrom;
  }

  /** The wake tick, counted modulo 2^32, is reached after `n` ticks and not before. */
  predicate SleepFits(n: nat, now: nat)
  {
    now + n < TWO32 || n == 1 || now == TWO32 - 1
  }

  /** The `k`-th tick after `now`, and whether it is at or past the wake tick. */
  lemma DueExactly(n: nat, now: nat, k: nat)
    requires 0 < n < TWO32 && now < TWO32 && SleepFits(n, now) && 1 <= k <= n
    ensures (now + k) % TWO32 >= (now + n) % TWO32 <==> k == n
  {
  }

  lemma TickNumber(now: nat, k: nat)
    ensures ((now + 1) % TWO32 + k) % TWO32 == (now + (k + 1)) % TWO32
  {
  }

  /** A task that sleeps for `n` ticks sleeps until the `n`-th tick and is runnable after it, whatever the others do
      meanwhile, as long as the wake tick does not wrap. */
  lemma {:induction false} SleepsUntilDue(s: Sched, n: nat, now: nat, events: seq<Event>)
    requires InUse(s) && IsLive(s.tasks[s.current]) && 0 < n < TWO32 && now < TWO32 && SleepFits(n, now)
    requires Consecutive(events, (now + 1) % TWO32) && Waits(SleepCurrent(s, n, now), events, s.current)
    ensures var s' := Run(SleepCurrent(s, n, now), events);
      && InUse(s')
      && (Ticks(events) < n ==> s'.tasks[s.current].state == Sleeping && s'.tasks[s.current].wake == (now + n) % TWO32)
      && (Ticks(events) == n && events[|events| - 1].TickEvent? ==> s'.tasks[s.current].state == Runnable)
    decreases |events|
  {
    hide Apply, IsBoundary;
    var t, s0 := s.current, SleepCurrent(s, n, now);
    if events != [] {
      var init, e := events[..|events| - 1], events[|events| - 1];
      TicksSnoc(events, (now + 1) % TWO32);
      WaitsInit(s0, events, t);
      SleepsUntilDue(s, n, now, init);
      SleepStep(Run(s0, init), e, t, n, now, Ticks(init));
    }
  }

  lemma SleepStep(s: Sched, e: Event, t: nat, n: nat, now: nat, k: nat)
    requires InUse(s) && t < MAX_TASKS && 0 < n < TWO32 && now < TWO32 && SleepFits(n, now)
    requires k < n ==> s.tasks[t].state == Sleeping && s.tasks[t].wake == (now + n) % TWO32
    requires s.current == t ==> e.TickEvent?
    requires e.TickEvent? ==> e.now == ((now + 1) % TWO32 + k) % TWO32
    ensures var s' := Apply(s, e);
      var k' := k + (if e.TickEvent? then 1 else 0);
      && InUse(s')
      && (k' < n ==> s'.tasks[t].state == Sleeping && s'.tasks[t].wake == (now + n) % TWO32)
      && (k' == n && e.TickEvent? ==> s'.tasks[t].state == Runnable)
  {
    hide Tick, CreateTask, CreateProcessTask, CreateRing3Task, ExitCurrent, SleepCurrent, SleepFits;
    StepInUse(s, e);
    if k < n {
      if e.TickEvent? {
        TickSpares(s, e.now, t);
        TickNumber(now, k);
        DueExactly(n, now, k + 1);
      } else {
        OthersSpare(s, e, t);
      }
    }
  }

  lemma StepInUse(s: Sched, e: Event)
    requires InUse(s)
    ensures InUse(Apply(s, e))
  {
    hide PickFrom;
    if e.TickEvent? {
      PickInUse(WakeAll(s.tasks, e.now), s.current, 1);
    } else {
      StaysInUse(s, e);
    }
  }

  /** Before its time, and while another task can run, a sleeper is not dispatched. */
  lemma SleeperNotPicked(s: Sched, now: nat, t: nat)
    requires InUse(s) && t < MAX_TASKS && s.tasks[t].state == Sleeping && now < s.tasks[t].wake && now % QUANTUM == 0
    requires SomeRunnable(s.tasks)
    ensures Shaped(Tick(s, now)) && Tick(s, now).current != t
    ensures Tick(s, now).tasks[Tick(s, now).current].state == Runnable
  {
    hide PickFrom;
    var tasks := WakeAll(s.tasks, now);
    var u :| 0 <= u < |s.tasks| && s.tasks[u].state == Runnable;
    assert tasks[u].state == Runnable;
    PicksRunnable(tasks, s.current);
  }

  /** So, of a task that sleeps for `n` ticks: none of the ticks before the `n`-th dispatches it while another task
      can run. */
  lemma NotDispatchedBefore(s: Sched, n: nat, now: nat, events: seq<Event>)
    requires InUse(s) && IsLive(s.tasks[s.current]) && 0 < n && now + n < TWO32
    requires Consecutive(events, now + 1) && Waits(SleepCurrent(s, n, now), events, s.current)
    requires Ticks(events) + 1 < n && (now + Ticks(events) + 1) % QUANTUM == 0
    requires SomeRunnable(Run(SleepCurrent(s, n, now), events).tasks)
    ensures var s' := Apply(Run(SleepCurrent(s, n, now), events), TickEvent(now + Ticks(events) + 1));
      Shaped(s') && s'.current != s.current && s'.tasks[s'.current].state == Runnable
  {
    hide Run, Tick, SomeRunnable;
    SleepsUntilDue(s, n, now, events);
    SleeperNotPicked(Run(SleepCurrent(s, n, now), events), now + Ticks(events) + 1, s.current);
  }

  /** When the wake tick wraps, the task is runnable after the very next tick, however long it meant to sleep. */
  lemma WrappedSleepEndsEarly(s: Sched, n: nat, now: nat)
    requires InUse(s) && IsLive(s.tasks[s.current]) && 0 < n < TWO32 && now < TWO32 && !SleepFits(n, now)
    ensures n > 1
    ensures var s' := Apply(SleepCurrent(s, n, now), TickEvent((now + 1) % TWO32));
      Shaped(s') && s'.tasks[s.current].state == Runnable
  {
    hide PickFrom;
    TickSpares(SleepCurrent(s, n, now), (now + 1) % TWO32, s.current);
  }

  /** The test of the loop in which the sleep call waits: it holds exactly while the task, being current, sleeps. */
  lemma WaitLoopExact(s: Sched, n: nat, now: nat, events: seq<Event>)
    requires InUse(s) && IsLive(s.tasks[s.current]) && 0 < n < TWO32 && now < TWO32 && now + n < TWO32
    requires Consecutive(events, (now + 1) % TWO32) && Waits(SleepCurrent(s, n, now), events, s.current)
    requires Ticks(events) < n && Run(SleepCurrent(s, n, now), events).current == s.current
    ensures CurrentSleeping(Run(SleepCurrent(s, n, now), events), now + Ticks(events))
    ensures !CurrentSleeping(Run(SleepCurrent(s, n, now), events), now + n)
  {
    hide Run;
    SleepsUntilDue(s, n, now, events);
  }

  // ----- Exit -----

  /** Exiting marks the current task, and changes no other. */
  lemma ExitMarksCurrent(s: Sched)
    requires Shaped(s) && IsLive(s.tasks[s.current])
    ensures var s' := ExitCurrent(s);
      && Shaped(s') && s'.current == s.current && s'.tasks[s.current].state == Exited
      && s'.tasks[s.current].tid == s.tasks[s.current].tid
      && forall i :: 0 <= i < MAX_TASKS && i != s.current ==> s'.tasks[i] == s.tasks[i]
  {
    hide FindProcess;
  }

  /** An exited task stays exited until its slot is cleared or taken by a new task. */
  lemma StaysExited(s: Sched, e: Event, t: nat)
    requires Shaped(s) && t < MAX_TASKS && s.tasks[t].state == Exited
    ensures Shaped(Apply(s, e))
    ensures Apply(s, e).tasks[t] == s.tasks[t] || Apply(s, e).tasks[t] == NO_TASK
            || (Apply(s, e).tasks[t].state == Runnable && Apply(s, e).tasks[t].tid == s.nextTid)
    ensures !e.KernelTask? && !e.ProcessTask? && !e.Ring3Task? ==> Apply(s, e).tasks[t] == s.tasks[t]
  {
    hide FindProcess, FreeProcess, PickFrom;
    ApplyShaped(s, e);
  }
}
