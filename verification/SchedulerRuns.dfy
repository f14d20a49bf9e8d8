/** Runs of the scheduler that stay within its identifiers, and runs that leave them. */
module SchedulerRuns {
  import opened Bytes
  import opened Scheduler
  import opened SchedulerAccounting

  predicate Creates(e: Event)
  {
    e.KernelTask? || e.ProcessTask? || e.Ring3Task?
  }

  function Creations(events: seq<Event>): nat
  {
    if events == [] then 0 else
      Creations(events[..|events| - 1]) + (if Creates(events[|events| - 1]) then 1 else 0)
  }

  /** The identifiers in use are below the next ones. */
  predicate Ordered(s: Sched)
  {
    && 1 <= s.nextPid && 1 <= s.nextTid
    && (forall i :: 0 <= i < |s.procs| && s.procs[i].used ==> s.procs[i].pid < s.nextPid)
    && (forall i :: 0 <= i < |s.tasks| && IsLive(s.tasks[i]) ==> s.tasks[i].tid < s.nextTid)
  }

  lemma OrderedFresh(s: Sched)
    requires Inv(s) && Ordered(s)
    ensures FreshTid(s.tasks, s.nextTid) && !HasProcess(s.procs, s.nextPid)
    ensures !RemovesOld(s)
  {
    FoundProcess(s.procs, s.nextPid);
  }

  lemma OrderedTask(s: Sched, pid: int, entryOk: bool, ring: int, stackOk: bool)
    requires Shaped(s) && Ordered(s) && s.nextTid + 1 < TWO32
    ensures var s' := CreateTask(s, pid, entryOk, ring, stackOk).0;
      Shaped(s') && Ordered(s') && s.nextTid <= s'.nextTid <= s.nextTid + 1 && s'.nextPid == s.nextPid
  {
    hide FindProcess, FreeTask;
  }

  lemma OrderedProcess(s: Sched, parent: int, cloneOk: bool)
    requires Shaped(s) && Ordered(s) && s.nextPid + 1 < TWO32
    ensures var s' := CreateProcess(s, parent, cloneOk).0;
      Shaped(s') && Ordered(s') && s.nextPid <= s'.nextPid <= s.nextPid + 1 && s'.nextTid == s.nextTid
  {
    hide FreeProcess;
  }

  lemma OrderedRemoval(s: Sched, pid: int)
    requires Shaped(s) && Ordered(s)
    ensures var s' := RemoveProcess(s, pid); Ordered(s') && s'.nextPid == s.nextPid && s'.nextTid == s.nextTid
  {
    hide FindProcess;
  }

  lemma OrderedCreation(s: Sched, e: Event)
    requires Shaped(s) && Ordered(s) && Creates(e) && s.nextPid + 1 < TWO32 && s.nextTid + 1 < TWO32
    ensures var s' := Apply(s, e);
      Ordered(s') && s'.nextPid <= s.nextPid + 1 && s'.nextTid <= s.nextTid + 1
  {
    hide Ordered, CreateTask, CreateProcess, RemoveProcess, FindProcess, FreeTask;
    if Enabled(s, e) {
      match e
      case KernelTask(entryOk, stackOk) => OrderedTask(s, KERNEL_PID, entryOk, 0, stackOk);
      case ProcessTask(entryOk, cloneOk, stackOk) =>
        OrderedProcess(s, CurrentPid(s), cloneOk);
        var (s1, pid) := CreateProcess(s, CurrentPid(s), cloneOk);
        OrderedTask(s1, pid, entryOk, 0, stackOk);
        OrderedRemoval(CreateTask(s1, pid, entryOk, 0, stackOk).0, pid);
      case Ring3Task(cloneOk, stackOk) =>
        OrderedProcess(s, CurrentPid(s), cloneOk);
        var (s1, pid) := CreateProcess(s, CurrentPid(s), cloneOk);
        OrderedTask(s1, pid, true, 3, stackOk);
        OrderedRemoval(CreateTask(s1, pid, true, 3, stackOk).0, pid);
    }
  }

  lemma OrderedOther(s: Sched, e: Event)
    requires Shaped(s) && Ordered(s) && !Creates(e)
    ensures var s' := Apply(s, e);
      Ordered(s') && s'.nextPid == s.nextPid && s'.nextTid == s.nextTid
  {
    hide FindProcess, PickFrom;
  }

  /** Until the identifiers run out the accounts are exact: fewer than 2^31 tasks, counting only the events that
      create something. */
  lemma {:induction false} EarlyRunsExact(s: Sched, events: seq<Event>)
    requires Inv(s) && Ordered(s)
    requires s.nextPid + Creations(events) < TWO32 && s.nextTid + Creations(events) <= TWO31
    ensures Shaped(s) && Inv(Run(s, events)) && Ordered(Run(s, events))
    ensures Run(s, events).nextPid <= s.nextPid + Creations(events)
    ensures Run(s, events).nextTid <= s.nextTid + Creations(events)
  {
    hide Inv, Ordered, Apply, Breaks, Creates;
    InvShaped(s);
    if events != [] {
      var e := events[|events| - 1];
      EarlyRunsExact(s, events[..|events| - 1]);
      var before := Run(s, events[..|events| - 1]);
      InvShaped(before);
      EarlyStep(before, e);
      ApplyKeepsInv(before, e);
      if Creates(e) {
        OrderedCreation(before, e);
      } else {
        OrderedOther(before, e);
      }
    }
  }

  lemma EarlyStep(s: Sched, e: Event)
    requires Inv(s) && Ordered(s) && (Creates(e) ==> s.nextTid < TWO31)
    ensures Shaped(s) && !Breaks(s, e)
  {
    hide CountLive, CountUsed, GoodTables, FreshTid, HasProcess, RemovesOld;
    OrderedFresh(s);
  }

  lemma StartsOrdered()
    ensures Inv(Init()) && Ordered(Init())
  {
    hide Inv;
    InitInv();
  }

  // ----- A task identifier that reads as negative -----

  /** The kernel task makes a task, which runs and exits. */
  function Lap(): seq<Event>
  {
    [KernelTask(true, true), TickEvent(0), ExitEvent, TickEvent(0)]
  }

  function Laps(k: nat): seq<Event>
  {
    if k == 0 then [] else Laps(k - 1) + Lap()
  }

  /** The scheduler after that many laps. */
  function Late(k: nat): Sched
  {
    var last := if k == 0 then NO_TASK else Task(Exited, 1 + k, KERNEL_PID, NO_WAKE, 0);
    Init().(tasks := Init().tasks[1 := last], nextTid := 2 + k)
  }

  lemma {:induction false} PickBack(tasks: seq<Task>, o: nat)
    requires |tasks| == MAX_TASKS && 1 <= o <= 15 && tasks[0].state == Runnable
    requires forall i :: 1 < i < MAX_TASKS ==> tasks[i].state != Runnable
    ensures PickFrom(tasks, 1, o) == 0
    decreases 15 - o
  {
    if o < 15 {
      PickBack(tasks, o + 1);
    }
  }

  lemma NothingWakes(tasks: seq<Task>)
    requires forall i :: 0 <= i < |tasks| ==> tasks[i].state != Sleeping
    ensures WakeAll(tasks, 0) == tasks
  {
  }

  /** During a lap, once the task is made. */
  function Busy(k: nat, current: nat): Sched
  {
    var s := Late(k);
    s.(tasks := s.tasks[1 := Task(Runnable, 2 + k, KERNEL_PID, NO_WAKE, 0)],
       procs := s.procs[0 := Process(true, KERNEL_PID, 0, 2)], nextTid := 3 + k, threadCount := 2, current := current)
  }

  lemma TaskMade(k: nat)
    requires 3 + k < TWO32
    ensures Apply(Late(k), KernelTask(true, true)) == Busy(k, 0)
  {
    var s := Late(k);
    assert FreeTask(s.tasks, 0) == FreeTask(s.tasks, 1) == 1 && FindProcess(s.procs, KERNEL_PID, 0) == 0;
  }

  lemma TaskRuns(k: nat)
    ensures Apply(Busy(k, 0), TickEvent(0)) == Busy(k, 1)
  {
    hide WakeAll;
    var s := Busy(k, 0);
    NothingWakes(s.tasks);
    assert PickFrom(s.tasks, 0, 1) == 1;
  }

  lemma TaskExits(k: nat)
    ensures Apply(Busy(k, 1), ExitEvent) == Late(k + 1).(current := 1)
  {
    var s := Busy(k, 1);
    assert FindProcess(s.procs, KERNEL_PID, 0) == 0;
    var s' := Apply(s, ExitEvent);
    assert s'.tasks == Late(k + 1).tasks && s'.procs == Late(k + 1).procs;
  }

  lemma TaskGone(k: nat)
    requires k > 0
    ensures Apply(Late(k).(current := 1), TickEvent(0)) == Late(k)
  {
    hide WakeAll;
    var s := Late(k);
    assert s.tasks[0] == Task(Runnable, 1, KERNEL_PID, NO_WAKE, 0);
    NothingWakes(s.tasks);
    PickBack(s.tasks, 1);
  }

  lemma NoLaps()
    ensures Shaped(Init()) && Init() == Late(0)
  {
    assert Init().tasks[1 := NO_TASK] == Init().tasks;
  }

  lemma {:induction false} LapsReach(k: nat)
    requires 2 + k < TWO32
    ensures Shaped(Init()) && Run(Init(), Laps(k)) == Late(k)
  {
    hide Late, Busy, Init, Apply;
    NoLaps();
    if k > 0 {
      LapsReach(k - 1);
      OneLap(k - 1);
    }
  }

  lemma OneLap(k: nat)
    requires 3 + k < TWO32 && Shaped(Init()) && Run(Init(), Laps(k)) == Late(k)
    ensures Run(Init(), Laps(k + 1)) == Late(k + 1)
  {
    hide Late, Busy, Init, Apply, Run, Shaped;
    TaskMade(k);
    TaskRuns(k);
    TaskExits(k);
    TaskGone(k + 1);
    var a := Laps(k) + [KernelTask(true, true)];
    var b := a + [TickEvent(0)];
    var c := b + [ExitEvent];
    RunSnoc(Init(), Laps(k), KernelTask(true, true));
    RunSnoc(Init(), a, TickEvent(0));
    RunSnoc(Init(), b, ExitEvent);
    RunSnoc(Init(), c, TickEvent(0));
    assert c + [TickEvent(0)] == Laps(k + 1);
  }

  /** From start-up, once 2^31 - 2 tasks have come and gone: a process whose task was made is removed again, and
      the task stays, runnable and counted, without a process. */
  lemma NegativeTaskOrphaned(k: nat)
    requires TWO31 - 2 <= k < TWO32 - 3
    ensures Shaped(Init()) && Breaks(Run(Init(), Laps(k)), ProcessTask(true, true, true))
    ensures var (s', r) := CreateProcessTask(Run(Init(), Laps(k)), true, true, true);
      && r == -1 && s'.tasks[1] == Task(Runnable, 2 + k, 2, NO_WAKE, 0) && s'.threadCount == 2
      && s'.processCount == 1 && !HasProcess(s'.procs, 2)
  {
    hide Run;
    LapsReach(k);
    var s := Late(k);
    assert FreeProcess(s.procs, 0) == FreeProcess(s.procs, 1) == 1;
    var s1 := CreateProcess(s, 1, true).0;
    assert s1.procs == s.procs[1 := Process(true, 2, 1, 0)];
    assert FindProcess(s1.procs, 2, 0) == FindProcess(s1.procs, 2, 1) == 1;
    assert FreeTask(s1.tasks, 0) == FreeTask(s1.tasks, 1) == 1;
    var s2 := CreateTask(s1, 2, true, 0, true).0;
    assert s2.procs == s.procs[1 := Process(true, 2, 1, 1)];
    assert FindProcess(s2.procs, 2, 0) == FindProcess(s2.procs, 2, 1) == 1;
    assert RemoveProcess(s2, 2).procs == s.procs;
    assert !s.procs[1].used && !IsLive(s.tasks[1]);
  }

  // ----- A process identifier that is 0 -----

  /** Process creations that find no address space; each uses up an identifier. */
  function Refusals(k: nat): seq<Event>
  {
    seq(k, _ => ProcessTask(true, false, true))
  }

  lemma Refused(n: nat)
    ensures Shaped(Init())
    ensures Apply(Init().(nextPid := n), ProcessTask(true, false, true)) == Init().(nextPid := (n + 1) % TWO32)
  {
    var s := Init().(nextPid := n);
    assert FreeProcess(s.procs, 0) == FreeProcess(s.procs, 1) == 1;
    assert s.procs[1 := NO_PROCESS] == s.procs;
  }

  lemma {:induction false} RefusalsReach(k: nat)
    ensures Shaped(Init()) && Run(Init(), Refusals(k)) == Init().(nextPid := (2 + k) % TWO32)
  {
    hide Init, Apply;
    StartsAtTwo();
    if k > 0 {
      hide Run, Shaped;
      RefusalsReach(k - 1);
      assert Refusals(k) == Refusals(k - 1) + [ProcessTask(true, false, true)];
      RunSnoc(Init(), Refusals(k - 1), ProcessTask(true, false, true));
      Refused((2 + (k - 1)) % TWO32);
    }
  }

  lemma StartsAtTwo()
    ensures Shaped(Init()) && Init() == Init().(nextPid := 2)
  {
  }

  /** From start-up, once the process identifiers have wrapped: the process that gets 0 is reported as a failure
      and stays in its slot, counted. */
  lemma ProcessZeroLeaks(k: nat)
    requires (2 + k) % TWO32 == 0
    ensures Shaped(Init()) && Breaks(Run(Init(), Refusals(k)), ProcessTask(true, true, true))
    ensures var (s', r) := CreateProcessTask(Run(Init(), Refusals(k)), true, true, true);
      r == -1 && s'.processCount == 2 && s'.procs[1] == Process(true, 0, 1, 0)
  {
    hide Run;
    RefusalsReach(k);
    var s := Init().(nextPid := 0);
    assert FreeProcess(s.procs, 0) == FreeProcess(s.procs, 1) == 1;
    assert !s.procs[1].used;
  }
}
