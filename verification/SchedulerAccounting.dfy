/** The counters of the scheduler equal what they count, in every reachable state. */
module SchedulerAccounting {
  import opened Bytes
  import opened Scheduler

  function LiveOne(t: Task): int
  {
    if IsLive(t) then 1 else 0
  }

  function LiveOf(t: Task, pid: int): int
  {
    if IsLive(t) && t.pid == pid then 1 else 0
  }

  function UsedOne(p: Process): int
  {
    if p.used then 1 else 0
  }

  function CountLive(tasks: seq<Task>): int
  {
    if tasks == [] then 0 else CountLive(tasks[..|tasks| - 1]) + LiveOne(tasks[|tasks| - 1])
  }

  function CountLiveOf(tasks: seq<Task>, pid: int): int
  {
    if tasks == [] then 0 else CountLiveOf(tasks[..|tasks| - 1], pid) + LiveOf(tasks[|tasks| - 1], pid)
  }

  function CountUsed(procs: seq<Process>): int
  {
    if procs == [] then 0 else CountUsed(procs[..|procs| - 1]) + UsedOne(procs[|procs| - 1])
  }

  lemma {:induction false} UpdateLive(tasks: seq<Task>, i: nat, t: Task, pid: int)
    requires i < |tasks|
    ensures CountLive(tasks[i := t]) == CountLive(tasks) - LiveOne(tasks[i]) + LiveOne(t)
    ensures CountLiveOf(tasks[i := t], pid) == CountLiveOf(tasks, pid) - LiveOf(tasks[i], pid) + LiveOf(t, pid)
  {
    var n := |tasks| - 1;
    var u := tasks[i := t];
    if i == n {
      assert u[..n] == tasks[..n];
    } else {
      assert u[..n] == tasks[..n][i := t];
      UpdateLive(tasks[..n], i, t, pid);
    }
  }

  lemma {:induction false} UpdateUsed(procs: seq<Process>, i: nat, p: Process)
    requires i < |procs|
    ensures CountUsed(procs[i := p]) == CountUsed(procs) - UsedOne(procs[i]) + UsedOne(p)
  {
    var n := |procs| - 1;
    var u := procs[i := p];
    if i == n {
      assert u[..n] == procs[..n];
    } else {
      assert u[..n] == procs[..n][i := p];
      UpdateUsed(procs[..n], i, p);
    }
  }

  lemma {:induction false} CountBounds(tasks: seq<Task>, pid: int)
    ensures 0 <= CountLiveOf(tasks, pid) <= CountLive(tasks) <= |tasks|
  {
    if tasks != [] {
      CountBounds(tasks[..|tasks| - 1], pid);
    }
  }

  lemma {:induction false} UsedBounds(procs: seq<Process>)
    ensures 0 <= CountUsed(procs) <= |procs|
  {
    if procs != [] {
      UsedBounds(procs[..|procs| - 1]);
    }
  }

  lemma {:induction false} CountMember(tasks: seq<Task>, i: nat)
    requires i < |tasks| && IsLive(tasks[i])
    ensures CountLiveOf(tasks, tasks[i].pid) >= 1
  {
    CountBounds(tasks[..|tasks| - 1], tasks[i].pid);
    if i < |tasks| - 1 {
      CountMember(tasks[..|tasks| - 1], i);
    }
  }

  lemma {:induction false} NoMember(tasks: seq<Task>, pid: int)
    requires forall i :: 0 <= i < |tasks| && IsLive(tasks[i]) ==> tasks[i].pid != pid
    ensures CountLiveOf(tasks, pid) == 0
  {
    if tasks != [] {
      var init := tasks[..|tasks| - 1];
      assert forall i :: 0 <= i < |init| ==> init[i] == tasks[i];
      NoMember(init, pid);
    }
  }

  // ----- Invariant -----

  /** A process slot is cleared, or it has an identifier and its thread counter counts its live tasks. */
  predicate GoodProcess(p: Process, tasks: seq<Task>)
  {
    if p.used then 1 <= p.pid < TWO32 && p.live == CountLiveOf(tasks, p.pid) else p == NO_PROCESS
  }

  predicate HasProcess(procs: seq<Process>, pid: int)
  {
    exists k :: 0 <= k < |procs| && procs[k].used && procs[k].pid == pid
  }

  predicate GoodTask(t: Task, procs: seq<Process>)
  {
    IsLive(t) ==> 1 <= t.tid < TWO32 && HasProcess(procs, t.pid)
  }

  predicate DistinctPids(procs: seq<Process>)
  {
    forall i, j :: 0 <= i < j < |procs| && procs[i].used && procs[j].used ==> procs[i].pid != procs[j].pid
  }

  predicate DistinctTids(tasks: seq<Task>)
  {
    forall i, j :: 0 <= i < j < |tasks| && IsLive(tasks[i]) && IsLive(tasks[j]) ==> tasks[i].tid != tasks[j].tid
  }

  predicate GoodTables(tasks: seq<Task>, procs: seq<Process>)
  {
    && (forall i :: 0 <= i < |procs| ==> GoodProcess(procs[i], tasks))
    && (forall i :: 0 <= i < |tasks| ==> GoodTask(tasks[i], procs))
    && DistinctPids(procs) && DistinctTids(tasks)
  }

  /** Thread and process counters are exact, identifiers of live tasks and used processes are distinct and not
      0, every live task belongs to an existing process, and the current slot is in use.  The next identifiers
      are any 32-bit numbers. */
  predicate Inv(s: Sched)
  {
    && Shaped(s)
    && 0 <= s.nextPid < TWO32 && 0 <= s.nextTid < TWO32
    && s.threadCount == CountLive(s.tasks)
    && s.processCount == CountUsed(s.procs)
    && GoodTables(s.tasks, s.procs)
    && s.tasks[s.current].state != Unused
  }

  /** No live task has the identifier, and it is not 0. */
  predicate FreshTid(tasks: seq<Task>, tid: int)
  {
    tid != 0 && forall i :: 0 <= i < |tasks| && IsLive(tasks[i]) ==> tasks[i].tid != tid
  }

  predicate RoomForTask(tasks: seq<Task>)
  {
    exists i :: 0 <= i < |tasks| && !IsLive(tasks[i])
  }

  predicate RoomForProcess(procs: seq<Process>)
  {
    exists i :: 0 <= i < |procs| && !procs[i].used
  }

  lemma FoundProcess(procs: seq<Process>, pid: int)
    ensures FindProcess(procs, pid, 0) < |procs| <==> HasProcess(procs, pid)
  {
    var k := FindProcess(procs, pid, 0);
    if k < |procs| {
      assert procs[k].used && procs[k].pid == pid;
    }
  }

  lemma FoundSlots(s: Sched)
    requires Shaped(s)
    ensures FreeTask(s.tasks, 0) < |s.tasks| <==> RoomForTask(s.tasks)
    ensures FreeProcess(s.procs, 0) < |s.procs| <==> RoomForProcess(s.procs)
  {
    var i, p := FreeTask(s.tasks, 0), FreeProcess(s.procs, 0);
    if i < |s.tasks| {
      assert !IsLive(s.tasks[i]);
    }
    if p < |s.procs| {
      assert !s.procs[p].used;
    }
  }

  /** Changing a slot that stays dead changes no count. */
  lemma DeadSlotUpdate(tasks: seq<Task>, i: nat, t: Task, procs: seq<Process>)
    requires i < |tasks| && !IsLive(tasks[i]) && !IsLive(t) && GoodTables(tasks, procs)
    ensures CountLive(tasks[i := t]) == CountLive(tasks)
    ensures GoodTables(tasks[i := t], procs)
  {
    hide CountLive, CountLiveOf, HasProcess;
    UpdateLive(tasks, i, t, 0);
    forall k | 0 <= k < |procs| ensures GoodProcess(procs[k], tasks[i := t]) {
      UpdateLive(tasks, i, t, procs[k].pid);
    }
  }

  // ----- Creating a process -----

  lemma NewProcess(tasks: seq<Task>, procs: seq<Process>, pid: int, i: nat, parent: int)
    requires GoodTables(tasks, procs) && i < |procs| && !procs[i].used && 1 <= pid < TWO32 && !HasProcess(procs, pid)
    ensures GoodTables(tasks, procs[i := Process(true, pid, parent, 0)])
    ensures CountUsed(procs[i := Process(true, pid, parent, 0)]) == CountUsed(procs) + 1
    ensures procs[i] == NO_PROCESS
  {
    hide CountLiveOf, CountUsed;
    var p := Process(true, pid, parent, 0);
    var procs' := procs[i := p];
    UpdateUsed(procs, i, p);
    forall k | 0 <= k < |tasks| ensures GoodTask(tasks[k], procs') {
      if IsLive(tasks[k]) {
        var j :| 0 <= j < |procs| && procs[j].used && procs[j].pid == tasks[k].pid;
        assert procs'[j] == procs[j];
      }
    }
    assert forall k :: 0 <= k < |tasks| && IsLive(tasks[k]) ==> GoodTask(tasks[k], procs);
    NoMember(tasks, pid);
    forall k | 0 <= k < |procs'| ensures GoodProcess(procs'[k], tasks) {
      if k != i {
        assert GoodProcess(procs[k], tasks);
      }
    }
    forall k, j | 0 <= k < j < |procs'| && procs'[k].used && procs'[j].used ensures procs'[k].pid != procs'[j].pid {
      assert GoodProcess(procs[k], tasks) && GoodProcess(procs[j], tasks);
    }
  }

  /** A process slot is filled: there is one, and the address space can be cloned or need not be. */
  predicate PlacesProcess(s: Sched, parent: int, cloneOk: bool)
  {
    RoomForProcess(s.procs) && (cloneOk || (s.processCount == 0 && parent == 0))
  }

  /** What creating a process does, whatever the identifiers: the first free slot is filled, or nothing
      changes but the next identifier. */
  lemma ProcessCreated(s: Sched, parent: int, cloneOk: bool)
    requires Shaped(s) && (forall i :: 0 <= i < |s.procs| && !s.procs[i].used ==> s.procs[i] == NO_PROCESS)
    requires 0 <= s.processCount <= MAX_PROCESSES
    ensures var (s', pid) := CreateProcess(s, parent, cloneOk);
      var i := FreeProcess(s.procs, 0);
      if PlacesProcess(s, parent, cloneOk) then
        && i < |s.procs| && s.procs[i] == NO_PROCESS && pid == s.nextPid
        && s' == s.(procs := s.procs[i := Process(true, pid, parent, 0)], processCount := s.processCount + 1,
                    nextPid := (s.nextPid + 1) % TWO32)
      else
        && pid == 0 && s' == s.(nextPid := s'.nextPid)
        && (s'.nextPid == s.nextPid || s'.nextPid == (s.nextPid + 1) % TWO32)
  {
    FoundSlots(s);
    var i := FreeProcess(s.procs, 0);
    if i < |s.procs| {
      assert s.procs[i := NO_PROCESS] == s.procs;
    }
  }

  lemma InvFacts(s: Sched)
    requires Inv(s)
    ensures forall i :: 0 <= i < |s.procs| && !s.procs[i].used ==> s.procs[i] == NO_PROCESS
    ensures 0 <= s.processCount <= MAX_PROCESSES && 0 <= s.threadCount <= MAX_TASKS
  {
    UsedBounds(s.procs);
    CountBounds(s.tasks, 0);
    forall i | 0 <= i < |s.procs| && !s.procs[i].used ensures s.procs[i] == NO_PROCESS {
      assert GoodProcess(s.procs[i], s.tasks);
    }
  }

  /** One cleared slot now holds the process. */
  predicate Fills(procs: seq<Process>, procs': seq<Process>, p: Process)
  {
    exists i :: 0 <= i < |procs| && procs[i] == NO_PROCESS && procs' == procs[i := p]
  }

  /** Creating a process keeps the accounts exactly when the identifier it takes is not 0 and not in use. */
  lemma CreateProcessKeepsInv(s: Sched, parent: int, cloneOk: bool)
    requires Inv(s)
    ensures var (s', pid) := CreateProcess(s, parent, cloneOk);
      var placed := PlacesProcess(s, parent, cloneOk);
      && (Inv(s') <==> (placed ==> s.nextPid != 0 && !HasProcess(s.procs, s.nextPid)))
      && s'.tasks == s.tasks && s'.threadCount == s.threadCount && s'.nextTid == s.nextTid
      && pid == (if placed then s.nextPid else 0)
      && (!placed ==> s'.procs == s.procs && s'.processCount == s.processCount)
      && (placed ==> s'.processCount == s.processCount + 1 && Fills(s.procs, s'.procs, Process(true, pid, parent, 0)))
  {
    hide CountLive, CountLiveOf, CountUsed, CreateProcess;
    InvFacts(s);
    ProcessCreated(s, parent, cloneOk);
    var i := FreeProcess(s.procs, 0);
    var (s', pid) := CreateProcess(s, parent, cloneOk);
    if PlacesProcess(s, parent, cloneOk) {
      assert s'.procs[i].used && s'.procs[i].pid == pid;
      if pid != 0 && !HasProcess(s.procs, pid) {
        NewProcess(s.tasks, s.procs, pid, i, parent);
      } else if pid == 0 {
        assert !GoodProcess(s'.procs[i], s'.tasks);
      } else {
        var j :| 0 <= j < |s.procs| && s.procs[j].used && s.procs[j].pid == pid;
        TwiceUsed(s'.procs, i, j);
      }
    }
  }

  lemma TwiceUsed(procs: seq<Process>, i: nat, j: nat)
    requires i < |procs| && j < |procs| && i != j && procs[i].used && procs[j].used && procs[i].pid == procs[j].pid
    ensures !DistinctPids(procs)
  {
    if i < j {
      assert procs[i].pid == procs[j].pid;
    } else {
      assert procs[j].pid == procs[i].pid;
    }
  }

  // ----- Creating a task -----

  lemma NewTask(s: Sched, i: nat, p: nat, ring: int)
    requires Inv(s) && i < |s.tasks| && !IsLive(s.tasks[i]) && p < |s.procs| && s.procs[p].used
    requires FreshTid(s.tasks, s.nextTid)
    ensures var t := Task(Runnable, s.nextTid, s.procs[p].pid, NO_WAKE, ring);
      GoodTables(s.tasks[i := t], s.procs[p := s.procs[p].(live := s.procs[p].live + 1)])
  {
    hide CountLive, CountLiveOf, CountUsed;
    var t := Task(Runnable, s.nextTid, s.procs[p].pid, NO_WAKE, ring);
    var tasks := s.tasks[i := t];
    var procs := s.procs[p := s.procs[p].(live := s.procs[p].live + 1)];
    forall k | 0 <= k < |procs| ensures GoodProcess(procs[k], tasks) {
      UpdateLive(s.tasks, i, t, procs[k].pid);
      assert GoodProcess(s.procs[k], s.tasks);
      if k != p && procs[k].used {
        assert procs[k].pid != procs[p].pid;
      }
    }
    forall k | 0 <= k < |tasks| ensures GoodTask(tasks[k], procs) {
      SameProcesses(s.procs, procs, tasks[k].pid);
      if k == i {
        assert procs[p].used && procs[p].pid == t.pid;
      } else {
        assert GoodTask(s.tasks[k], s.procs);
      }
    }
    forall k, j | 0 <= k < j < |procs| && procs[k].used && procs[j].used ensures procs[k].pid != procs[j].pid {
      assert s.procs[k].pid != s.procs[j].pid;
    }
  }

  lemma StaleTid(tasks: seq<Task>, i: nat, t: Task, procs: seq<Process>)
    requires i < |tasks| && !IsLive(tasks[i]) && IsLive(t) && !FreshTid(tasks, t.tid)
    ensures !GoodTables(tasks[i := t], procs)
  {
    var tasks' := tasks[i := t];
    if t.tid == 0 {
      assert !GoodTask(tasks'[i], procs);
    } else {
      var k :| 0 <= k < |tasks| && IsLive(tasks[k]) && tasks[k].tid == t.tid;
      assert tasks'[k] == tasks[k];
      if k < i {
        assert tasks'[k].tid == tasks'[i].tid;
      } else {
        assert tasks'[i].tid == tasks'[k].tid;
      }
    }
  }

  lemma NewCounts(s: Sched, i: nat, t: Task, p: nat, q: Process)
    requires Inv(s) && i < |s.tasks| && !IsLive(s.tasks[i]) && IsLive(t) && p < |s.procs| && s.procs[p].used && q.used
    ensures CountLive(s.tasks[i := t]) == s.threadCount + 1 && CountUsed(s.procs[p := q]) == s.processCount
  {
    UpdateLive(s.tasks, i, t, 0);
    UpdateUsed(s.procs, p, q);
  }

  /** Two tables that differ in thread counters only hold the same processes. */
  lemma SameProcesses(procs: seq<Process>, procs': seq<Process>, pid: int)
    requires |procs| == |procs'|
    requires forall k :: 0 <= k < |procs| ==> procs[k].used == procs'[k].used && procs[k].pid == procs'[k].pid
    ensures HasProcess(procs, pid) ==> HasProcess(procs', pid)
  {
    if HasProcess(procs, pid) {
      var j :| 0 <= j < |procs| && procs[j].used && procs[j].pid == pid;
      assert procs'[j].used && procs'[j].pid == pid;
    }
  }

  /** The task is made: its entry and its stack are good, its process exists and a slot is free. */
  predicate MakesTask(s: Sched, pid: int, entryOk: bool, stackOk: bool)
  {
    entryOk && stackOk && HasProcess(s.procs, pid) && RoomForTask(s.tasks)
  }

  /** One dead slot now holds the task. */
  predicate TakesDead(tasks: seq<Task>, tasks': seq<Task>, t: Task)
  {
    exists i :: 0 <= i < |tasks| && !IsLive(tasks[i]) && tasks' == tasks[i := t]
  }

  /** A task takes a dead slot exactly when it is made, otherwise no live task and no process changes.  The
      result is not negative exactly when it is made and its identifier is below 2^31. */
  lemma TaskCreated(s: Sched, pid: int, entryOk: bool, ring: int, stackOk: bool)
    requires Shaped(s) && 0 <= s.nextTid < TWO32
    ensures var (s', r) := CreateTask(s, pid, entryOk, ring, stackOk);
      && (r >= 0 <==> MakesTask(s, pid, entryOk, stackOk) && s.nextTid < TWO31)
      && (MakesTask(s, pid, entryOk, stackOk) ==>
            TakesDead(s.tasks, s'.tasks, Task(Runnable, s.nextTid, pid, NO_WAKE, ring)))
      && (!MakesTask(s, pid, entryOk, stackOk) ==> s' == s.(tasks := s'.tasks) && SameButDead(s.tasks, s'.tasks))
  {
    hide HasProcess;
    FoundProcess(s.procs, pid);
    FoundSlots(s);
  }

  /** The live tasks are the same ones; a dead slot may have been cleared. */
  predicate SameButDead(tasks: seq<Task>, tasks': seq<Task>)
  {
    && |tasks| == |tasks'|
    && forall i :: 0 <= i < |tasks| ==> tasks[i] == tasks'[i] || (!IsLive(tasks[i]) && !IsLive(tasks'[i]))
  }

  /** Creating a task keeps the accounts exactly when the identifier it takes is not 0 and not in use. */
  lemma CreateTaskKeepsInv(s: Sched, pid: int, entryOk: bool, ring: int, stackOk: bool)
    requires Inv(s) && IsLive(s.tasks[s.current])
    ensures var s' := CreateTask(s, pid, entryOk, ring, stackOk).0;
      var made := MakesTask(s, pid, entryOk, stackOk);
      && (Inv(s') <==> (made ==> FreshTid(s.tasks, s.nextTid)))
      && IsLive(s'.tasks[s'.current]) && s'.current == s.current
      && s'.threadCount == s.threadCount + (if made then 1 else 0)
  {
    hide CountLive, CountLiveOf, CountUsed, GoodTables, FreshTid, HasProcess;
    FoundProcess(s.procs, pid);
    FoundSlots(s);
    InvFacts(s);
    var p := FindProcess(s.procs, pid, 0);
    var i := FreeTask(s.tasks, 0);
    if entryOk && p < |s.procs| && i < |s.tasks| {
      DeadSlotUpdate(s.tasks, i, NO_TASK, s.procs);
      ThreadBound(s, p);
      if stackOk {
        var t := Task(Runnable, s.nextTid, pid, NO_WAKE, ring);
        NewCounts(s, i, t, p, s.procs[p].(live := s.procs[p].live + 1));
        if FreshTid(s.tasks, s.nextTid) {
          NewTask(s, i, p, ring);
        } else {
          StaleTid(s.tasks, i, t, s.procs[p := s.procs[p].(live := s.procs[p].live + 1)]);
        }
      }
    }
  }

  lemma ThreadBound(s: Sched, p: nat)
    requires Inv(s) && p < |s.procs| && s.procs[p].used
    ensures 0 <= s.procs[p].live <= MAX_TASKS
  {
    assert GoodProcess(s.procs[p], s.tasks);
    CountBounds(s.tasks, s.procs[p].pid);
  }

  // ----- Creating both -----

  lemma DropProcess(tasks: seq<Task>, procs: seq<Process>, p: nat)
    requires GoodTables(tasks, procs) && p < |procs| && procs[p].used && procs[p].live == 0
    ensures GoodTables(tasks, procs[p := NO_PROCESS]) && !HasProcess(procs[p := NO_PROCESS], procs[p].pid)
    ensures CountUsed(procs[p := NO_PROCESS]) == CountUsed(procs) - 1
  {
    hide CountLive, CountLiveOf, CountUsed;
    var procs' := procs[p := NO_PROCESS];
    UpdateUsed(procs, p, NO_PROCESS);
    assert GoodProcess(procs[p], tasks);
    forall k | 0 <= k < |tasks| ensures GoodTask(tasks[k], procs') {
      if IsLive(tasks[k]) {
        assert GoodTask(tasks[k], procs);
        var j :| 0 <= j < |procs| && procs[j].used && procs[j].pid == tasks[k].pid;
        CountMember(tasks, k);
        assert procs'[j] == procs[j];
      }
    }
    forall k | 0 <= k < |procs'| ensures GoodProcess(procs'[k], tasks) {
      if k != p {
        assert GoodProcess(procs[k], tasks);
      }
    }
    forall k, j | 0 <= k < j < |procs'| && procs'[k].used && procs'[j].used ensures procs'[k].pid != procs'[j].pid {
      assert procs[k].pid != procs[j].pid;
    }
  }

  /** A process that has the next identifier would be removed in place of the new one, although it has tasks. */
  predicate RemovesOld(s: Sched)
  {
    var j := FindProcess(s.procs, s.nextPid, 0);
    j < FreeProcess(s.procs, 0) && s.procs[j].live != 0
  }

  /** `s` with the next process in its first free slot. */
  function WithProcess(s: Sched, parent: int): Sched
    requires Shaped(s) && FreeProcess(s.procs, 0) < |s.procs|
  {
    s.(procs := s.procs[FreeProcess(s.procs, 0) := Process(true, s.nextPid, parent, 0)],
       processCount := s.processCount + 1, nextPid := (s.nextPid + 1) % TWO32)
  }

  /** Where the removal finds the process: in the new slot, or before it in an old one. */
  lemma RemovedSlot(s: Sched, parent: int)
    requires Inv(s) && FreeProcess(s.procs, 0) < |s.procs|
    ensures var i, j := FreeProcess(s.procs, 0), FindProcess(s.procs, s.nextPid, 0);
      FindProcess(WithProcess(s, parent).procs, s.nextPid, 0) == if j < i then j else i
  {
    hide CountLive, CountUsed, GoodTables;
    var i := FreeProcess(s.procs, 0);
    var procs := WithProcess(s, parent).procs;
    assert procs[i].used && procs[i].pid == s.nextPid;
    assert forall q :: 0 <= q < i ==> procs[q] == s.procs[q];
  }

  /** Rolling back when no task was made: the tables are as before, or the old process has changed slots. */
  lemma RollBack(s: Sched, s2: Sched, parent: int)
    requires Inv(s) && IsLive(s.tasks[s.current]) && FreeProcess(s.procs, 0) < |s.procs| && s.nextPid != 0
    requires s2 == WithProcess(s, parent).(tasks := s2.tasks) && SameButDead(s.tasks, s2.tasks)
    ensures Inv(RemoveProcess(s2, s.nextPid)) <==> !RemovesOld(s)
    ensures !HasProcess(s.procs, s.nextPid) ==>
      RemoveProcess(s2, s.nextPid) == s2.(procs := s.procs, processCount := s.processCount)
  {
    hide CountLive, CountLiveOf, CountUsed, GoodTables;
    var pid := s.nextPid;
    var i, j := FreeProcess(s.procs, 0), FindProcess(s.procs, pid, 0);
    var s3 := RemoveProcess(s2, pid);
    InvFacts(s);
    RemovedSlot(s, parent);
    FoundProcess(s.procs, pid);
    SameTables(s.tasks, s2.tasks, s.procs);
    if i <= j {
      assert s.procs[i := Process(true, pid, parent, 0)][i := NO_PROCESS] == s.procs;
    } else {
      var moved := s.procs[j := NO_PROCESS][i := Process(true, pid, parent, 0)];
      assert s.procs[i := Process(true, pid, parent, 0)][j := NO_PROCESS] == moved;
      Words(s, j);
      if s.procs[j].live == 0 {
        DropProcess(s2.tasks, s.procs, j);
        NewProcess(s2.tasks, s.procs[j := NO_PROCESS], pid, i, parent);
      } else {
        Moved(s, s2.tasks, i, j, parent);
      }
    }
  }

  lemma Words(s: Sched, j: nat)
    requires Inv(s) && j < |s.procs| && s.procs[j].used
    ensures 1 <= s.procs[j].pid < TWO32 && s.procs[j].live == CountLiveOf(s.tasks, s.procs[j].pid)
  {
    assert GoodProcess(s.procs[j], s.tasks);
  }

  /** A process that lost its thread count does not count its tasks. */
  lemma Moved(s: Sched, tasks: seq<Task>, i: nat, j: nat, parent: int)
    requires Inv(s) && |tasks| == |s.tasks| && i < |s.procs| && j < |s.procs| && i != j && s.procs[j].used
    requires CountLiveOf(tasks, s.procs[j].pid) != 0
    ensures !GoodTables(tasks, s.procs[j := NO_PROCESS][i := Process(true, s.procs[j].pid, parent, 0)])
  {
    var procs := s.procs[j := NO_PROCESS][i := Process(true, s.procs[j].pid, parent, 0)];
    assert !GoodProcess(procs[i], tasks);
  }

  lemma SameTables(tasks: seq<Task>, tasks': seq<Task>, procs: seq<Process>)
    requires SameButDead(tasks, tasks') && GoodTables(tasks, procs)
    ensures CountLive(tasks) == CountLive(tasks') && GoodTables(tasks', procs)
    ensures forall pid :: CountLiveOf(tasks, pid) == CountLiveOf(tasks', pid)
  {
    hide CountLive, CountLiveOf, HasProcess;
    SameLive(tasks, tasks', 0);
    forall pid ensures CountLiveOf(tasks, pid) == CountLiveOf(tasks', pid) {
      SameLive(tasks, tasks', pid);
    }
    forall k | 0 <= k < |procs| ensures GoodProcess(procs[k], tasks') {
      assert GoodProcess(procs[k], tasks);
    }
    forall k | 0 <= k < |tasks'| ensures GoodTask(tasks'[k], procs) {
      assert GoodTask(tasks[k], procs);
    }
    forall k, j | 0 <= k < j < |tasks'| && IsLive(tasks'[k]) && IsLive(tasks'[j])
      ensures tasks'[k].tid != tasks'[j].tid
    {
      assert tasks[k].tid != tasks[j].tid;
    }
  }

  lemma {:induction false} SameLive(a: seq<Task>, b: seq<Task>, pid: int)
    requires SameButDead(a, b)
    ensures CountLive(a) == CountLive(b) && CountLiveOf(a, pid) == CountLiveOf(b, pid)
  {
    if a != [] {
      var n := |a| - 1;
      assert forall i :: 0 <= i < n ==> a[..n][i] == a[i] && b[..n][i] == b[i];
      SameLive(a[..n], b[..n], pid);
    }
  }

  /** A task made for a process whose identifier was in use, or whose process is then removed, leaves the
      accounts wrong. */
  lemma MadeBreaks(s: Sched, parent: int, ring: int, undo: bool)
    requires Inv(s) && FreeProcess(s.procs, 0) < |s.procs| && s.nextPid != 0 && FreeTask(s.tasks, 0) < |s.tasks|
    requires undo || HasProcess(s.procs, s.nextPid)
    ensures var s2 := CreateTask(WithProcess(s, parent), s.nextPid, true, ring, true).0;
      !Inv(if undo then RemoveProcess(s2, s.nextPid) else s2)
  {
    hide CountLive, CountLiveOf, CountUsed;
    var pid := s.nextPid;
    var s1 := WithProcess(s, parent);
    var i, j := FreeProcess(s.procs, 0), FindProcess(s.procs, pid, 0);
    var p, k := FindProcess(s1.procs, pid, 0), FreeTask(s.tasks, 0);
    RemovedSlot(s, parent);
    FoundProcess(s.procs, pid);
    var t := Task(Runnable, s.nextTid, pid, NO_WAKE, ring);
    var s2 := CreateTask(s1, pid, true, ring, true).0;
    assert s2.tasks == s.tasks[k := t];
    assert s2.procs == s1.procs[p := s1.procs[p].(live := (s1.procs[p].live + 1) % TWO32)];
    if !undo {
      TwiceUsed(s2.procs, i, j);
    } else if Inv(RemoveProcess(s2, pid)) {
      StillCounted(s, s2, i, j, p, k, parent);
    }
  }

  lemma StillCounted(s: Sched, s2: Sched, i: nat, j: nat, p: nat, k: nat, parent: int)
    requires Inv(s) && s.nextPid != 0
    requires i == FreeProcess(s.procs, 0) < |s.procs| && j == FindProcess(s.procs, s.nextPid, 0)
    requires p == (if j < i then j else i) && k < |s.tasks| && !IsLive(s.tasks[k])
    requires |s2.tasks| == |s.tasks| && s2.tasks == s.tasks[k := s2.tasks[k]]
    requires IsLive(s2.tasks[k]) && s2.tasks[k].pid == s.nextPid
    requires var procs := s.procs[i := Process(true, s.nextPid, parent, 0)];
      && |s2.procs| == |procs| && s2.procs == procs[p := s2.procs[p]]
      && s2.procs[p].used && s2.procs[p].pid == s.nextPid && Shaped(s2)
    ensures !Inv(RemoveProcess(s2, s.nextPid))
  {
    hide CountLive, CountLiveOf, CountUsed;
    var pid := s.nextPid;
    var s3 := RemoveProcess(s2, pid);
    FirstSlot(s, s2.procs, i, j, p, parent);
    UpdateLive(s.tasks, k, s2.tasks[k], pid);
    CountBounds(s.tasks, pid);
    forall r | 0 <= r < |s3.procs| && s3.procs[r].used && s3.procs[r].pid == pid
      ensures !GoodProcess(s3.procs[r], s3.tasks)
    {
      if r != i {
        assert s3.procs[r] == s.procs[r];
        assert GoodProcess(s.procs[r], s.tasks);
      }
    }
    assert GoodTask(s3.tasks[k], s3.procs) ==> HasProcess(s3.procs, pid);
  }

  lemma FirstSlot(s: Sched, procs: seq<Process>, i: nat, j: nat, p: nat, parent: int)
    requires Shaped(s) && i == FreeProcess(s.procs, 0) < |s.procs| && j == FindProcess(s.procs, s.nextPid, 0)
    requires p == (if j < i then j else i) && |procs| == |s.procs|
    requires procs == s.procs[i := Process(true, s.nextPid, parent, 0)][p := procs[p]]
    requires procs[p].used && procs[p].pid == s.nextPid
    ensures FindProcess(procs, s.nextPid, 0) == p
  {
    assert forall q :: 0 <= q < p ==> procs[q] == s.procs[q];
  }

  /** The step that makes a process and its task breaks the accounts: it takes 0, or an identifier in use, or
      removes the wrong process; with `signed`, also when the task's identifier reads as negative. */
  predicate PairBreaks(s: Sched, entryOk: bool, cloneOk: bool, stackOk: bool, signed: bool)
    requires Shaped(s)
  {
    && PlacesProcess(s, CurrentPid(s), cloneOk)
    && (s.nextPid == 0 ||
        if entryOk && stackOk && RoomForTask(s.tasks) then
          !FreshTid(s.tasks, s.nextTid) || HasProcess(s.procs, s.nextPid) || (signed && s.nextTid >= TWO31)
        else RemovesOld(s))
  }

  /** The common end of both creations; `undo` says whether the process is removed again. */
  lemma PairKeepsInv(s: Sched, entryOk: bool, ring: int, stackOk: bool, undo: bool)
    requires Inv(s) && IsLive(s.tasks[s.current]) && FreeProcess(s.procs, 0) < |s.procs| && s.nextPid != 0
    requires !(entryOk && stackOk && RoomForTask(s.tasks)) ==> undo
    ensures var s2 := CreateTask(WithProcess(s, CurrentPid(s)), s.nextPid, entryOk, ring, stackOk).0;
      var kept := if entryOk && stackOk && RoomForTask(s.tasks)
                  then FreshTid(s.tasks, s.nextTid) && !HasProcess(s.procs, s.nextPid) && !undo
                  else !RemovesOld(s);
      Inv(if undo then RemoveProcess(s2, s.nextPid) else s2) <==> kept
  {
    hide CountLive, CountLiveOf, CountUsed, GoodTables, CreateTask, RemoveProcess, FreshTid, RemovesOld, Fills,
         TakesDead;
    var s1 := WithProcess(s, CurrentPid(s));
    var made := entryOk && stackOk && RoomForTask(s.tasks);
    assert s1.procs[FreeProcess(s.procs, 0)].used && s1.procs[FreeProcess(s.procs, 0)].pid == s.nextPid;
    assert HasProcess(s1.procs, s.nextPid);
    TaskCreated(s1, s.nextPid, entryOk, ring, stackOk);
    FoundSlots(s);
    if !made {
      RollBack(s, CreateTask(s1, s.nextPid, entryOk, ring, stackOk).0, CurrentPid(s));
    } else if undo || HasProcess(s.procs, s.nextPid) {
      MadeBreaks(s, CurrentPid(s), ring, undo);
    } else {
      PlacedInv(s);
      CreateTaskKeepsInv(s1, s.nextPid, entryOk, ring, stackOk);
    }
  }

  lemma PlacedInv(s: Sched)
    requires Inv(s) && FreeProcess(s.procs, 0) < |s.procs| && s.nextPid != 0 && !HasProcess(s.procs, s.nextPid)
    ensures Inv(WithProcess(s, CurrentPid(s)))
  {
    hide CountLive, CountLiveOf, CountUsed, GoodTables;
    InvFacts(s);
    NewProcess(s.tasks, s.procs, s.nextPid, FreeProcess(s.procs, 0), CurrentPid(s));
  }

  /** A creation that made no task leaves processes, counters and live tasks as they were; only the next process
      identifier moves on and a dead task slot may have been cleared. */
  predicate RolledBack(s: Sched, s': Sched)
  {
    s' == s.(tasks := s'.tasks, nextPid := s'.nextPid) && SameButDead(s.tasks, s'.tasks)
  }

  lemma NothingPlaced(s: Sched, cloneOk: bool)
    requires Inv(s) && !PlacesProcess(s, CurrentPid(s), cloneOk)
    ensures var (s', pid) := CreateProcess(s, CurrentPid(s), cloneOk);
      pid == 0 && Inv(s') && RolledBack(s, s')
  {
    hide CountLive, CountLiveOf, CountUsed, GoodTables, CreateProcess;
    InvFacts(s);
    ProcessCreated(s, CurrentPid(s), cloneOk);
  }

  /** Creating a process with its task keeps the accounts exactly when the step does not break them; if it makes
      no task although the process's identifier is free, everything is rolled back. */
  lemma CreateProcessTaskKeepsInv(s: Sched, entryOk: bool, cloneOk: bool, stackOk: bool)
    requires Inv(s) && IsLive(s.tasks[s.current])
    ensures var (s', r) := CreateProcessTask(s, entryOk, cloneOk, stackOk);
      var placed := PlacesProcess(s, CurrentPid(s), cloneOk);
      var made := placed && entryOk && stackOk && RoomForTask(s.tasks);
      && (Inv(s') <==> !PairBreaks(s, entryOk, cloneOk, stackOk, true))
      && (!placed || (!made && s.nextPid != 0 && !HasProcess(s.procs, s.nextPid)) ==> r == -1 && RolledBack(s, s'))
      && (made && Inv(s') ==>
            && r == Signed(s.nextPid) && s'.processCount == s.processCount + 1 && s'.threadCount == s.threadCount + 1
            && Fills(s.procs, s'.procs, Process(true, s.nextPid, s.tasks[s.current].pid, 1))
            && TakesDead(s.tasks, s'.tasks, Task(Runnable, s.nextTid, s.nextPid, NO_WAKE, 0)))
  {
    hide CountLive, CountLiveOf, CountUsed, GoodTables, CreateProcess, CreateTask, RemoveProcess, FreshTid,
         RemovesOld, Fills, TakesDead;
    InvFacts(s);
    FoundSlots(s);
    if !PlacesProcess(s, CurrentPid(s), cloneOk) {
      NothingPlaced(s, cloneOk);
    } else {
      ProcessCreated(s, CurrentPid(s), cloneOk);
      if s.nextPid == 0 {
        CreateProcessKeepsInv(s, CurrentPid(s), cloneOk);
      } else {
        var s1 := WithProcess(s, CurrentPid(s));
        assert s1.procs[FreeProcess(s.procs, 0)].used && s1.procs[FreeProcess(s.procs, 0)].pid == s.nextPid;
        TaskCreated(s1, s.nextPid, entryOk, 0, stackOk);
        var (s2, tid) := CreateTask(s1, s.nextPid, entryOk, 0, stackOk);
        PairKeepsInv(s, entryOk, 0, stackOk, tid < 0);
        if !HasProcess(s.procs, s.nextPid) {
          PairOutcome(s, entryOk, 0, stackOk);
        }
      }
    }
  }

  /** The counts after both creations, and after a roll back. */
  lemma PairOutcome(s: Sched, entryOk: bool, ring: int, stackOk: bool)
    requires Inv(s) && IsLive(s.tasks[s.current]) && FreeProcess(s.procs, 0) < |s.procs| && s.nextPid != 0
    requires !HasProcess(s.procs, s.nextPid)
    ensures var s2 := CreateTask(WithProcess(s, CurrentPid(s)), s.nextPid, entryOk, ring, stackOk).0;
      if entryOk && stackOk && RoomForTask(s.tasks)
      then
        && s2.processCount == s.processCount + 1 && s2.threadCount == s.threadCount + 1
        && Fills(s.procs, s2.procs, Process(true, s.nextPid, CurrentPid(s), 1))
        && TakesDead(s.tasks, s2.tasks, Task(Runnable, s.nextTid, s.nextPid, NO_WAKE, ring))
      else RolledBack(s, RemoveProcess(s2, s.nextPid))
  {
    hide CountLive, CountLiveOf, CountUsed, GoodTables, RemoveProcess;
    var s1 := WithProcess(s, CurrentPid(s));
    assert s1.procs[FreeProcess(s.procs, 0)].used && s1.procs[FreeProcess(s.procs, 0)].pid == s.nextPid;
    FoundSlots(s);
    FoundProcess(s1.procs, s.nextPid);
    InvFacts(s);
    if !(entryOk && stackOk && RoomForTask(s.tasks)) {
      TaskCreated(s1, s.nextPid, entryOk, ring, stackOk);
      RollBack(s, CreateTask(s1, s.nextPid, entryOk, ring, stackOk).0, CurrentPid(s));
    } else {
      var i := FreeProcess(s.procs, 0);
      RemovedSlot(s, CurrentPid(s));
      FoundProcess(s.procs, s.nextPid);
      assert CreateTask(s1, s.nextPid, entryOk, ring, stackOk).0.procs
        == s.procs[i := Process(true, s.nextPid, CurrentPid(s), 1)];
      TaskCreated(s1, s.nextPid, entryOk, ring, stackOk);
    }
  }

  /** The same for a user task, whose identifier's sign is not looked at. */
  lemma CreateRing3TaskKeepsInv(s: Sched, cloneOk: bool, stackOk: bool)
    requires Inv(s) && IsLive(s.tasks[s.current])
    ensures var (s', r) := CreateRing3Task(s, cloneOk, stackOk);
      var placed := PlacesProcess(s, CurrentPid(s), cloneOk);
      var made := placed && stackOk && RoomForTask(s.tasks);
      && (Inv(s') <==> !PairBreaks(s, true, cloneOk, stackOk, false))
      && (!placed || (!made && s.nextPid != 0 && !HasProcess(s.procs, s.nextPid)) ==> r == -1 && RolledBack(s, s'))
      && (made && Inv(s') ==>
            && r == Signed(s.nextPid) && s'.processCount == s.processCount + 1 && s'.threadCount == s.threadCount + 1
            && Fills(s.procs, s'.procs, Process(true, s.nextPid, s.tasks[s.current].pid, 1))
            && TakesDead(s.tasks, s'.tasks, Task(Runnable, s.nextTid, s.nextPid, NO_WAKE, 3)))
  {
    hide CountLive, CountLiveOf, CountUsed, GoodTables, CreateProcess, CreateTask, RemoveProcess, FreshTid,
         RemovesOld, Fills, TakesDead;
    InvFacts(s);
    FoundSlots(s);
    if !PlacesProcess(s, CurrentPid(s), cloneOk) {
      NothingPlaced(s, cloneOk);
    } else {
      ProcessCreated(s, CurrentPid(s), cloneOk);
      if s.nextPid == 0 {
        CreateProcessKeepsInv(s, CurrentPid(s), cloneOk);
      } else {
        var s1 := WithProcess(s, CurrentPid(s));
        assert s1.procs[FreeProcess(s.procs, 0)].used && s1.procs[FreeProcess(s.procs, 0)].pid == s.nextPid;
        FoundProcess(s1.procs, s.nextPid);
        PairKeepsInv(s, true, 3, stackOk, !(stackOk && RoomForTask(s.tasks)));
        if !HasProcess(s.procs, s.nextPid) {
          PairOutcome(s, true, 3, stackOk);
        }
      }
    }
  }

  // ----- Exit and sleep -----

  /** Exiting keeps the accounts and never frees a process slot, not even with the last task: only the thread
      counter of the task's own process changes. */
  lemma ExitKeepsInv(s: Sched)
    requires Inv(s)
    ensures Inv(ExitCurrent(s))
    ensures ExitCurrent(s).processCount == s.processCount && |ExitCurrent(s).procs| == |s.procs|
    ensures forall k :: 0 <= k < |s.procs| ==>
      var exits := s.procs[k].used && IsLive(s.tasks[s.current]) && s.procs[k].pid == s.tasks[s.current].pid;
      ExitCurrent(s).procs[k] == if exits then s.procs[k].(live := s.procs[k].live - 1) else s.procs[k]
    ensures ExitCurrent(s).nextPid == s.nextPid && ExitCurrent(s).nextTid == s.nextTid
  {
    hide CountLive, CountLiveOf, CountUsed;
    var t := s.tasks[s.current];
    if IsLive(t) {
      var u := t.(state := Exited, wake := NO_WAKE);
      var s' := ExitCurrent(s);
      assert GoodTask(t, s.procs);
      FoundProcess(s.procs, t.pid);
      var p := FindProcess(s.procs, t.pid, 0);
      CountMember(s.tasks, s.current);
      CountBounds(s.tasks, t.pid);
      UpdateLive(s.tasks, s.current, u, t.pid);
      assert GoodProcess(s.procs[p], s.tasks);
      UpdateUsed(s.procs, p, s'.procs[p]);
      forall k | 0 <= k < |s'.procs| ensures GoodProcess(s'.procs[k], s'.tasks) {
        UpdateLive(s.tasks, s.current, u, s'.procs[k].pid);
        assert GoodProcess(s.procs[k], s.tasks);
        if k != p && s'.procs[k].used {
          assert s.procs[k].pid != s.procs[p].pid;
        }
      }
      forall k | 0 <= k < |s'.tasks| ensures GoodTask(s'.tasks[k], s'.procs) {
        SameProcesses(s.procs, s'.procs, s'.tasks[k].pid);
        assert GoodTask(s.tasks[k], s.procs);
      }
      forall k, j | 0 <= k < j < |s'.procs| && s'.procs[k].used && s'.procs[j].used
        ensures s'.procs[k].pid != s'.procs[j].pid
      {
        assert s.procs[k].pid != s.procs[j].pid;
      }
    }
  }

  /** An exited task that sleeps is back on the table, uncounted: the kernel task right after start-up. */
  lemma SleepAfterExit()
    ensures
      var s := SleepCurrent(ExitCurrent(Init()), 1, 0);
      s.tasks[0].state == Sleeping && s.threadCount == 0 && s.procs[0].live == 0 && !Inv(s)
  {
    hide CountLive, CountLiveOf, CountUsed, GoodTables;
    InitInv();
    ExitKeepsInv(Init());
    SleepKeepsInv(ExitCurrent(Init()), 1, 0);
  }

  /** Replacing a live task by a live task with the same identifiers. */
  lemma SameIdentity(s: Sched, tasks: seq<Task>)
    requires Inv(s) && |tasks| == |s.tasks|
    requires forall i :: 0 <= i < |tasks| ==>
      tasks[i].tid == s.tasks[i].tid && tasks[i].pid == s.tasks[i].pid && IsLive(tasks[i]) == IsLive(s.tasks[i])
    ensures CountLive(tasks) == CountLive(s.tasks) && GoodTables(tasks, s.procs)
  {
    hide HasProcess, IsLive;
    SameCounts(s.tasks, tasks, 0);
    forall k | 0 <= k < |s.procs| ensures GoodProcess(s.procs[k], tasks) {
      SameCounts(s.tasks, tasks, s.procs[k].pid);
      assert GoodProcess(s.procs[k], s.tasks);
    }
    forall k | 0 <= k < |tasks| ensures GoodTask(tasks[k], s.procs) {
      assert GoodTask(s.tasks[k], s.procs);
    }
    forall k, j | 0 <= k < j < |tasks| && IsLive(tasks[k]) && IsLive(tasks[j]) ensures tasks[k].tid != tasks[j].tid {
      assert s.tasks[k].tid != s.tasks[j].tid;
    }
  }

  lemma {:induction false} SameCounts(a: seq<Task>, b: seq<Task>, pid: int)
    requires |a| == |b|
    requires forall i :: 0 <= i < |a| ==> b[i].pid == a[i].pid && IsLive(b[i]) == IsLive(a[i])
    ensures CountLive(a) == CountLive(b) && CountLiveOf(a, pid) == CountLiveOf(b, pid)
  {
    if a != [] {
      var n := |a| - 1;
      assert forall i :: 0 <= i < n ==> a[..n][i] == a[i] && b[..n][i] == b[i];
      SameCounts(a[..n], b[..n], pid);
    }
  }

  /** Sleeping keeps the accounts exactly unless an exited task sleeps: that brings it back to life
      without counting it. */
  lemma SleepKeepsInv(s: Sched, ticks: int, now: int)
    requires Inv(s)
    ensures Inv(SleepCurrent(s, ticks, now)) <==> ticks == 0 || s.tasks[s.current].state != Exited
  {
    hide CountLive, CountLiveOf, CountUsed, GoodTables;
    var t := s.tasks[s.current];
    var s' := SleepCurrent(s, ticks, now);
    if ticks != 0 {
      if t.state == Exited {
        UpdateLive(s.tasks, s.current, s'.tasks[s.current], 0);
      } else {
        SameIdentity(s, s'.tasks);
      }
    }
  }

  // ----- Timer -----

  lemma {:induction false} PickInUse(tasks: seq<Task>, current: nat, o: nat)
    requires |tasks| == MAX_TASKS && current < MAX_TASKS && 1 <= o <= MAX_TASKS + 1 && tasks[current].state != Unused
    ensures tasks[PickFrom(tasks, current, o)].state != Unused
    decreases MAX_TASKS + 1 - o
  {
    if o <= MAX_TASKS && tasks[(current + o) % MAX_TASKS].state != Runnable {
      PickInUse(tasks, current, o + 1);
    }
  }

  lemma TickKeepsInv(s: Sched, now: int)
    requires Inv(s)
    ensures Inv(Tick(s, now))
    ensures Tick(s, now).nextPid == s.nextPid && Tick(s, now).nextTid == s.nextTid
  {
    hide CountLive, CountLiveOf, CountUsed, GoodTables;
    var tasks := WakeAll(s.tasks, now);
    SameIdentity(s, tasks);
    PickInUse(tasks, s.current, 1);
  }

  // ----- Runs -----

  /** The step breaks the accounts, in terms of what the state is before it. */
  predicate Breaks(s: Sched, e: Event)
    requires Shaped(s)
  {
    Enabled(s, e) &&
    match e
    case TickEvent(_) => false
    case KernelTask(entryOk, stackOk) => MakesTask(s, KERNEL_PID, entryOk, stackOk) && !FreshTid(s.tasks, s.nextTid)
    case ProcessTask(entryOk, cloneOk, stackOk) => PairBreaks(s, entryOk, cloneOk, stackOk, true)
    case Ring3Task(cloneOk, stackOk) => PairBreaks(s, true, cloneOk, stackOk, false)
    case SleepEvent(_, _) => false
    case ExitEvent => false
  }

  lemma ApplyKeepsInv(s: Sched, e: Event)
    requires Inv(s)
    ensures Shaped(s) && (Inv(Apply(s, e)) <==> !Breaks(s, e))
  {
    hide Inv, CreateTask, CreateProcessTask, CreateRing3Task, Tick, ExitCurrent, PairBreaks, FreshTid, MakesTask;
    InvShaped(s);
    if Enabled(s, e) {
      match e {
        case TickEvent(now) => TickKeepsInv(s, now);
        case KernelTask(entryOk, stackOk) => CreateTaskKeepsInv(s, KERNEL_PID, entryOk, 0, stackOk);
        case ProcessTask(entryOk, cloneOk, stackOk) => CreateProcessTaskKeepsInv(s, entryOk, cloneOk, stackOk);
        case Ring3Task(cloneOk, stackOk) => CreateRing3TaskKeepsInv(s, cloneOk, stackOk);
        case SleepEvent(ticks, now) => SleepKeepsInv(s, ticks, now);
        case ExitEvent => ExitKeepsInv(s);
      }
    }
  }

  lemma InvShaped(s: Sched)
    requires Inv(s)
    ensures Shaped(s)
  {
  }

  lemma ApplyShaped(s: Sched, e: Event)
    requires Shaped(s)
    ensures Shaped(Apply(s, e))
  {
    hide FindProcess, FreeProcess, FreeTask, PickFrom;
  }

  function Run(s: Sched, events: seq<Event>): (r: Sched)
    requires Shaped(s)
    ensures Shaped(r)
  {
    if events == [] then s else
      var before := Run(s, events[..|events| - 1]);
      ApplyShaped(before, events[|events| - 1]);
      Apply(before, events[|events| - 1])
  }

  lemma RunSnoc(s: Sched, events: seq<Event>, e: Event)
    requires Shaped(s)
    ensures Run(s, events + [e]) == Apply(Run(s, events), e)
  {
    assert (events + [e])[..|events + [e]| - 1] == events;
  }

  lemma InitInv()
    ensures Inv(Init())
  {
    var s := Init();
    var idle: seq<Task> := seq(MAX_TASKS, _ => NO_TASK);
    NoneLive(idle);
    UpdateLive(idle, 0, s.tasks[0], KERNEL_PID);
    var none: seq<Process> := seq(MAX_PROCESSES, _ => NO_PROCESS);
    NoneUsed(none);
    UpdateUsed(none, 0, s.procs[0]);
    assert s.procs[0].used && s.procs[0].pid == KERNEL_PID;
    assert forall i :: 0 < i < |s.tasks| ==> s.tasks[i] == NO_TASK;
    assert forall i :: 0 < i < |s.procs| ==> s.procs[i] == NO_PROCESS;
    assert HasProcess(s.procs, KERNEL_PID);
  }

  lemma {:induction false} NoneLive(tasks: seq<Task>)
    requires forall i :: 0 <= i < |tasks| ==> !IsLive(tasks[i])
    ensures CountLive(tasks) == 0 && CountLiveOf(tasks, KERNEL_PID) == 0
  {
    if tasks != [] {
      NoneLive(tasks[..|tasks| - 1]);
    }
  }

  lemma {:induction false} NoneUsed(procs: seq<Process>)
    requires forall i :: 0 <= i < |procs| ==> !procs[i].used
    ensures CountUsed(procs) == 0
  {
    if procs != [] {
      NoneUsed(procs[..|procs| - 1]);
    }
  }

  predicate NeverBreaks(s: Sched, events: seq<Event>)
    requires Shaped(s)
  {
    forall i :: 0 <= i < |events| ==> !Breaks(Run(s, events[..i]), events[i])
  }

  /** Accounting over all runs: the accounts are exact after every step if and only if no creation takes an
      identifier it must not, in the state it meets. */
  lemma {:induction false} AccountsExact(s: Sched, events: seq<Event>)
    requires Inv(s)
    ensures Shaped(s)
    ensures (forall i :: 0 <= i <= |events| ==> Inv(Run(s, events[..i]))) <==> NeverBreaks(s, events)
  {
    hide Inv, Apply, Breaks;
    InvShaped(s);
    if events == [] {
      assert forall i :: 0 <= i <= |events| ==> events[..i] == [];
    } else {
      var n := |events| - 1;
      var init := events[..n];
      assert forall i :: 0 <= i <= n ==> init[..i] == events[..i];
      assert forall i :: 0 <= i < n ==> init[i] == events[i];
      AccountsExact(s, init);
      assert events[..|events|] == events && init[..n] == init;
      assert Run(s, events) == Apply(Run(s, init), events[n]);
      if NeverBreaks(s, init) {
        ApplyKeepsInv(Run(s, init), events[n]);
      }
    }
  }
}
