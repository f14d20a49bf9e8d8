/** Bounded waiting: a runnable task is dispatched within sixteen quantum
    boundaries, whatever the other tasks do. */
module SchedulerFairness {
  import opened Bytes
  import opened Scheduler
  import opened SchedulerAccounting

  /** How many slots the round robin has to move from `current` to `t`: between 1 and 16. */
  function Distance(current: nat, t: nat): (d: nat)
    requires current < MAX_TASKS && t < MAX_TASKS
    ensures 1 <= d <= MAX_TASKS && (current + d) % MAX_TASKS == t
  {
    if current < t then t - current else t + MAX_TASKS - current
  }

  /** Picking from offset `o` never skips the runnable task `t`. */
  lemma {:induction false} PickBefore(tasks: seq<Task>, current: nat, t: nat, o: nat) returns (d: nat)
    requires |tasks| == MAX_TASKS && current < MAX_TASKS && t < MAX_TASKS && tasks[t].state == Runnable
    requires 1 <= o <= Distance(current, t)
    ensures o <= d <= Distance(current, t) && PickFrom(tasks, current, o) == (current + d) % MAX_TASKS
    decreases MAX_TASKS - o
  {
    if tasks[(current + o) % MAX_TASKS].state != Runnable {
      d := PickBefore(tasks, current, t, o + 1);
    } else {
      d := o;
    }
  }

  /** Each quantum boundary dispatches `t` or brings it strictly closer. */
  lemma PickProgress(tasks: seq<Task>, current: nat, t: nat)
    requires |tasks| == MAX_TASKS && current < MAX_TASKS && t < MAX_TASKS && tasks[t].state == Runnable
    ensures var next := PickFrom(tasks, current, 1);
      next == t || Distance(next, t) < Distance(current, t)
  {
    hide PickFrom;
    var d := PickBefore(tasks, current, t, 1);
    MovedCloser(current, t, d);
  }

  lemma MovedCloser(current: nat, t: nat, d: nat)
    requires current < MAX_TASKS && t < MAX_TASKS && 1 <= d <= Distance(current, t)
    ensures var next := (current + d) % MAX_TASKS; next == t || Distance(next, t) == Distance(current, t) - d
  {
  }

  lemma CreateSpares(s: Sched, pid: int, entryOk: bool, ring: int, stackOk: bool, t: nat)
    requires Shaped(s) && t < MAX_TASKS && s.tasks[t].state == Runnable
    ensures var s' := CreateTask(s, pid, entryOk, ring, stackOk).0;
      Shaped(s') && s'.tasks[t].state == Runnable && s'.current == s.current
  {
    hide FindProcess;
  }

  lemma CreateProcessSpares(s: Sched, entryOk: bool, cloneOk: bool, stackOk: bool, t: nat)
    requires Shaped(s) && t < MAX_TASKS && s.tasks[t].state == Runnable
    ensures var s' := CreateProcessTask(s, entryOk, cloneOk, stackOk).0;
      Shaped(s') && s'.tasks[t].state == Runnable && s'.current == s.current
  {
    hide CreateTask, FindProcess, FreeProcess;
    var (s1, pid) := CreateProcess(s, CurrentPid(s), cloneOk);
    CreateSpares(s1, pid, entryOk, 0, stackOk, t);
  }

  lemma CreateRing3Spares(s: Sched, cloneOk: bool, stackOk: bool, t: nat)
    requires Shaped(s) && t < MAX_TASKS && s.tasks[t].state == Runnable
    ensures var s' := CreateRing3Task(s, cloneOk, stackOk).0;
      Shaped(s') && s'.tasks[t].state == Runnable && s'.current == s.current
  {
    hide CreateTask, FindProcess, FreeProcess;
    var (s1, pid) := CreateProcess(s, CurrentPid(s), cloneOk);
    CreateSpares(s1, pid, true, 3, stackOk, t);
  }

  /** Only its own steps take a task out of the runnable state: while it is not current it stays runnable. */
  lemma StaysRunnable(s: Sched, e: Event, t: nat)
    requires Shaped(s) && t < MAX_TASKS && s.tasks[t].state == Runnable && t != s.current
    ensures Shaped(Apply(s, e)) && Apply(s, e).tasks[t].state == Runnable
    ensures !e.TickEvent? ==> Apply(s, e).current == s.current
  {
    hide PickFrom, CreateTask, CreateProcess, RemoveProcess;
    if IsLive(s.tasks[s.current]) {
      match e {
        case TickEvent(_) | SleepEvent(_, _) | ExitEvent =>
        case KernelTask(entryOk, stackOk) => CreateSpares(s, KERNEL_PID, entryOk, 0, stackOk, t);
        case ProcessTask(entryOk, cloneOk, stackOk) => CreateProcessSpares(s, entryOk, cloneOk, stackOk, t);
        case Ring3Task(cloneOk, stackOk) => CreateRing3Spares(s, cloneOk, stackOk, t);
      }
    }
  }

  predicate IsBoundary(e: Event)
  {
    e.TickEvent? && e.now % QUANTUM == 0
  }

  function Boundaries(events: seq<Event>): nat
  {
    if events == [] then 0 else (if IsBoundary(events[0]) then 1 else 0) + Boundaries(events[1..])
  }

  /** At some point of the run, possibly at once, `t` is the current task. */
  ghost predicate Reaches(s: Sched, events: seq<Event>, t: nat)
    requires Shaped(s)
    decreases |events|
  {
    s.current == t ||
    (events != [] && Shaped(Apply(s, events[0])) && Reaches(Apply(s, events[0]), events[1..], t))
  }

  /** All that dispatching depends on: the current slot has been filled.  The accounts and the identifiers may
      be anything. */
  predicate InUse(s: Sched)
  {
    Shaped(s) && s.tasks[s.current].state != Unused
  }

  /** A tick that finds `t` runnable once everyone due has been woken. */
  lemma BoundaryStep(s: Sched, e: Event, t: nat)
    requires InUse(s) && t < MAX_TASKS && e.TickEvent? && Wake(s.tasks[t], e.now).state == Runnable
    ensures InUse(Apply(s, e)) && Apply(s, e).tasks[t].state == Runnable
    ensures !IsBoundary(e) ==> Apply(s, e).current == s.current
    ensures IsBoundary(e) && Apply(s, e).current != t ==> Distance(Apply(s, e).current, t) < Distance(s.current, t)
  {
    hide PickFrom, Distance;
    var tasks := WakeAll(s.tasks, e.now);
    PickProgress(tasks, s.current, t);
    PickInUse(tasks, s.current, 1);
  }

  /** A live current task keeps its slot through every creation, and through exit and sleep. */
  lemma StaysInUse(s: Sched, e: Event)
    requires InUse(s) && !e.TickEvent?
    ensures InUse(Apply(s, e)) && Apply(s, e).current == s.current
  {
    hide FindProcess, FreeProcess;
  }

  /** A runnable task is dispatched within as many quantum boundaries as its distance, hence within sixteen,
      whatever tasks are created, sleep or exit in between. */
  lemma {:induction false} BoundedWaiting(s: Sched, events: seq<Event>, t: nat)
    requires InUse(s) && t < MAX_TASKS && s.tasks[t].state == Runnable
    requires Boundaries(events) >= Distance(s.current, t)
    ensures Reaches(s, events, t)
    decreases |events|
  {
    hide Apply, IsBoundary, Distance;
    if s.current != t {
      var e := events[0];
      if e.TickEvent? {
        BoundaryStep(s, e, t);
      } else {
        StaysInUse(s, e);
        StaysRunnable(s, e, t);
        NotABoundary(e);
      }
      if Apply(s, e).current != t {
        BoundedWaiting(Apply(s, e), events[1..], t);
      }
    }
  }

  lemma NotABoundary(e: Event)
    requires !e.TickEvent?
    ensures !IsBoundary(e)
  {
  }

  // ----- Sleepers -----

  /** The ticks of the run are those of a 32-bit counter that stands at `from`. */
  predicate Consecutive(events: seq<Event>, from: nat)
  {
    if events == [] then true
    else if events[0].TickEvent? then events[0].now == from && Consecutive(events[1..], (from + 1) % TWO32)
    else Consecutive(events[1..], from)
  }

  function Ticks(events: seq<Event>): nat
  {
    if events == [] then 0 else (if events[0].TickEvent? then 1 else 0) + Ticks(events[1..])
  }

  /** Every tenth tick is a boundary; when the counter wraps, the next one comes early. */
  lemma {:induction false} BoundariesOfTicks(events: seq<Event>, from: nat)
    requires Consecutive(events, from) && from < TWO32
    ensures 10 * Boundaries(events) >= Ticks(events) + (from + 9) % 10 - 9
  {
    if events != [] {
      var next := if events[0].TickEvent? then (from + 1) % TWO32 else from;
      BoundariesOfTicks(events[1..], next);
    }
  }

  /** A task whose wake tick has come is current again after the wake tick or one of the 159 ticks that
      follow it, also when the tick counter wraps meanwhile. */
  lemma SleeperRunsAgain(s: Sched, events: seq<Event>, t: nat, wakeTick: nat)
    requires InUse(s) && t < MAX_TASKS && s.tasks[t].state == Sleeping && s.tasks[t].wake <= wakeTick < TWO32
    requires events != [] && events[0] == TickEvent(wakeTick) && Consecutive(events, wakeTick) && Ticks(events) >= 160
    ensures Shaped(Apply(s, events[0])) && Reaches(Apply(s, events[0]), events[1..], t)
  {
    hide Apply, Distance;
    BoundariesOfTicks(events, wakeTick);
    BoundaryStep(s, events[0], t);
    if Apply(s, events[0]).current != t {
      BoundedWaiting(Apply(s, events[0]), events[1..], t);
    }
  }
}
