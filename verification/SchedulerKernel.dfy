/** The scheduler's tables updated in place.  Every method is the corresponding
    step of the `Scheduler` state machine. */
module SchedulerKernel {
  import opened Bytes
  import opened Scheduler

  class TaskScheduler {
    const tasks: array<Task>
    const procs: array<Process>
    var current: nat
    var nextPid: int
    var nextTid: int
    var processCount: int
    var threadCount: int

    ghost predicate Valid()
      reads this
    {
      tasks.Length == MAX_TASKS && procs.Length == MAX_PROCESSES && current < MAX_TASKS
    }

    ghost function View(): Sched
      reads this, tasks, procs
    {
      Sched(tasks[..], procs[..], current, nextPid, nextTid, processCount, threadCount)
    }

    constructor ()
      ensures Valid() && fresh(tasks) && fresh(procs) && View() == Init()
    {
      tasks := new Task[MAX_TASKS](_ => NO_TASK);
      procs := new Process[MAX_PROCESSES](_ => NO_PROCESS);
      current, nextPid, nextTid, processCount, threadCount := 0, 1, 1, 0, 0;
      new;
      assert procs[..][0] == NO_PROCESS;
      var pid := CreateProcess(0, true);
      tasks[0] := Task(Runnable, nextTid, pid, NO_WAKE, 0);
      nextTid := nextTid + 1;
      procs[0] := procs[0].(live := 1);
      threadCount := 1;
      assert View().tasks == Init().tasks && View().procs == Init().procs;
    }

    method FindProcessSlot(pid: int) returns (k: nat)
      requires Valid()
      ensures k == FindProcess(procs[..], pid, 0)
    {
      k := 0;
      while k < MAX_PROCESSES
        invariant k <= MAX_PROCESSES && FindProcess(procs[..], pid, 0) == FindProcess(procs[..], pid, k)
      {
        if procs[k].used && procs[k].pid == pid {
          return;
        }
        k := k + 1;
      }
    }

    method AllocTaskSlot() returns (k: nat)
      requires Valid()
      ensures k == FreeTask(tasks[..], 0)
    {
      k := 0;
      while k < MAX_TASKS
        invariant k <= MAX_TASKS && FreeTask(tasks[..], 0) == FreeTask(tasks[..], k)
      {
        if tasks[k].state == Unused || tasks[k].state == Exited {
          return;
        }
        k := k + 1;
      }
    }

    method CreateProcess(parent: int, cloneOk: bool) returns (pid: int)
      requires Valid()
      modifies this, procs
      ensures Valid() && (View(), pid) == Scheduler.CreateProcess(old(View()), parent, cloneOk)
    {
      var i := 0;
      while i < MAX_PROCESSES
        invariant i <= MAX_PROCESSES && Valid() && View() == old(View())
        invariant FreeProcess(procs[..], 0) == FreeProcess(procs[..], i)
      {
        if !procs[i].used {
          pid := nextPid;
          nextPid := (nextPid + 1) % TWO32;
          procs[i] := Process(true, pid, parent, 0);
          if !(processCount == 0 && parent == 0) && !cloneOk {
            procs[i] := NO_PROCESS;
            assert procs[..] == old(procs[..])[i := NO_PROCESS];
            return 0;
          }
          processCount := (processCount + 1) % TWO32;
          return;
        }
        i := i + 1;
      }
      pid := 0;
    }

    method CreateTaskForProcess(pid: int, entryOk: bool, ring: int, stackOk: bool) returns (tid: int)
      requires Valid()
      modifies this, tasks, procs
      ensures Valid() && (View(), tid) == CreateTask(old(View()), pid, entryOk, ring, stackOk)
    {
      if !entryOk {
        return -1;
      }
      var p := FindProcessSlot(pid);
      if p == MAX_PROCESSES {
        return -1;
      }
      var i := AllocTaskSlot();
      if i == MAX_TASKS {
        return -1;
      }
      tasks[i] := NO_TASK;
      if !stackOk {
        return -1;
      }
      tid := Signed(nextTid);
      tasks[i] := Task(Runnable, nextTid, pid, NO_WAKE, ring);
      assert tasks[..] == old(tasks[..])[i := Task(Runnable, nextTid, pid, NO_WAKE, ring)];
      nextTid := (nextTid + 1) % TWO32;
      procs[p] := procs[p].(live := (procs[p].live + 1) % TWO32);
      threadCount := (threadCount + 1) % TWO32;
    }

    method CurrentProcessId() returns (pid: int)
      requires Valid()
      ensures pid == CurrentPid(View())
    {
      pid := if tasks[current].state == Unused then 0 else tasks[current].pid;
    }

    /** Clears the slot and gives the process back to the count. */
    method DropSlot(p: nat)
      requires Valid() && p < MAX_PROCESSES
      modifies this, procs
      ensures Valid() && View() == old(View()).(
        procs := old(procs[..])[p := NO_PROCESS],
        processCount := if old(processCount) > 0 then old(processCount) - 1 else old(processCount))
    {
      procs[p] := NO_PROCESS;
      if processCount > 0 {
        processCount := processCount - 1;
      }
    }

    method CreateProcessWithTask(entryOk: bool, cloneOk: bool, stackOk: bool) returns (r: int)
      requires Valid()
      modifies this, tasks, procs
      ensures Valid() && (View(), r) == CreateProcessTask(old(View()), entryOk, cloneOk, stackOk)
    {
      hide FindProcess, FreeTask, FreeProcess;
      var parent := CurrentProcessId();
      var pid := CreateProcess(parent, cloneOk);
      if pid == 0 {
        return -1;
      }
      var tid := CreateTaskForProcess(pid, entryOk, 0, stackOk);
      if tid < 0 {
        var p := FindProcessSlot(pid);
        if p < MAX_PROCESSES {
          DropSlot(p);
        }
        return -1;
      }
      r := Signed(pid);
    }

    method CreateRing3(cloneOk: bool, stackOk: bool) returns (r: int)
      requires Valid()
      modifies this, tasks, procs
      ensures Valid() && (View(), r) == CreateRing3Task(old(View()), cloneOk, stackOk)
    {
      hide FindProcess, FreeTask, FreeProcess;
      var parent := CurrentProcessId();
      var pid := CreateProcess(parent, cloneOk);
      if pid == 0 {
        return -1;
      }
      ghost var s1 := View();
      var p := FindProcessSlot(pid);
      if p == MAX_PROCESSES {
        return -1;
      }
      var i := AllocTaskSlot();
      if i == MAX_TASKS {
        DropSlot(p);
        return -1;
      }
      tasks[i] := NO_TASK;
      if !stackOk {
        DropSlot(p);
        return -1;
      }
      tasks[i] := Task(Runnable, nextTid, pid, NO_WAKE, 3);
      assert tasks[..] == s1.tasks[i := Task(Runnable, nextTid, pid, NO_WAKE, 3)];
      nextTid := (nextTid + 1) % TWO32;
      procs[p] := procs[p].(live := (procs[p].live + 1) % TWO32);
      threadCount := (threadCount + 1) % TWO32;
      r := Signed(pid);
    }

    method MarkCurrentExited()
      requires Valid()
      modifies this, tasks, procs
      ensures Valid() && View() == ExitCurrent(old(View()))
    {
      hide FindProcess;
      var t := tasks[current];
      if t.state == Unused || t.state == Exited {
        return;
      }
      var p := FindProcessSlot(t.pid);
      if p < MAX_PROCESSES && procs[p].live > 0 {
        procs[p] := procs[p].(live := procs[p].live - 1);
      }
      if threadCount > 0 {
        threadCount := threadCount - 1;
      }
      tasks[current] := t.(state := Exited, wake := NO_WAKE);
    }

    method Sleep(ticks: int, now: int)
      requires Valid()
      modifies tasks
      ensures View() == SleepCurrent(old(View()), ticks, now)
    {
      if ticks == 0 || tasks[current].state == Unused {
        return;
      }
      tasks[current] := tasks[current].(state := Sleeping, wake := (now + ticks) % TWO32);
    }

    method IsCurrentSleeping(now: int) returns (r: bool)
      requires Valid()
      ensures r == CurrentSleeping(View(), now)
    {
      r := tasks[current].state == Sleeping && now < tasks[current].wake;
    }

    method WakeSleepingTasks(now: int)
      requires Valid()
      modifies tasks
      ensures tasks[..] == WakeAll(old(tasks[..]), now)
    {
      for i := 0 to MAX_TASKS
        invariant forall j :: 0 <= j < i ==> tasks[j] == Wake(old(tasks[j]), now)
        invariant forall j :: i <= j < MAX_TASKS ==> tasks[j] == old(tasks[j])
      {
        if tasks[i].state == Sleeping && now >= tasks[i].wake {
          tasks[i] := tasks[i].(state := Runnable, wake := NO_WAKE);
        }
      }
    }

    method PickNextRunnable() returns (k: nat)
      requires Valid()
      ensures k == PickFrom(tasks[..], current, 1)
    {
      var o := 1;
      while o <= MAX_TASKS
        invariant 1 <= o <= MAX_TASKS + 1 && PickFrom(tasks[..], current, 1) == PickFrom(tasks[..], current, o)
      {
        k := (current + o) % MAX_TASKS;
        if tasks[k].state == Runnable {
          return;
        }
        o := o + 1;
      }
      k := current;
    }

    method OnTimerInterrupt(now: int)
      requires Valid()
      modifies this, tasks
      ensures Valid() && View() == Tick(old(View()), now)
    {
      hide PickFrom;
      if tasks[current].state == Unused {
        return;
      }
      WakeSleepingTasks(now);
      if now % QUANTUM != 0 {
        return;
      }
      current := PickNextRunnable();
    }
  }
}
