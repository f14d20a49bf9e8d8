/** The round-robin scheduler as a state machine over its task and process tables.

    Creating, sleeping and exiting are steps of the current task; a timer tick
    can happen at any time.  Whether a stack or an address space can be
    allocated is decided by the environment. */
module Scheduler {
  import opened Bytes

  const MAX_TASKS: nat := 16
  const MAX_PROCESSES: nat := 8
  const QUANTUM: int := 10
  const NO_WAKE: int := 0xFFFF_FFFF
  const TWO31: int := 0x8000_0000
  const KERNEL_PID: int := 1

  datatype TaskState = Unused | Runnable | Sleeping | Exited

  datatype Task = Task(state: TaskState, tid: int, pid: int, wake: int, ring: int)

  datatype Process = Process(used: bool, pid: int, parent: int, live: int)

  const NO_TASK := Task(Unused, 0, 0, NO_WAKE, 0)
  const NO_PROCESS := Process(false, 0, 0, 0)

  datatype Sched = Sched(
    tasks: seq<Task>, procs: seq<Process>, current: nat,
    nextPid: int, nextTid: int, processCount: int, threadCount: int)

  predicate Shaped(s: Sched)
  {
    |s.tasks| == MAX_TASKS && |s.procs| == MAX_PROCESSES && s.current < MAX_TASKS
  }

  predicate IsLive(t: Task)
  {
    t.state == Runnable || t.state == Sleeping
  }

  /** A 32-bit number as the source's signed results read it. */
  function Signed(x: int): int
  {
    if x < TWO31 then x else x - TWO32
  }

  // ----- Lookups -----

  function FindProcess(procs: seq<Process>, pid: int, i: nat): (k: nat)
    requires i <= |procs|
    ensures i <= k <= |procs|
    ensures k < |procs| ==> procs[k].used && procs[k].pid == pid
    ensures forall j :: i <= j < k ==> !(procs[j].used && procs[j].pid == pid)
    decreases |procs| - i
  {
    if i == |procs| || (procs[i].used && procs[i].pid == pid) then i else FindProcess(procs, pid, i + 1)
  }

  function FreeProcess(procs: seq<Process>, i: nat): (k: nat)
    requires i <= |procs|
    ensures i <= k <= |procs|
    ensures k < |procs| ==> !procs[k].used
    ensures forall j :: i <= j < k ==> procs[j].used
    decreases |procs| - i
  {
    if i == |procs| || !procs[i].used then i else FreeProcess(procs, i + 1)
  }

  function FreeTask(tasks: seq<Task>, i: nat): (k: nat)
    requires i <= |tasks|
    ensures i <= k <= |tasks|
    ensures k < |tasks| ==> !IsLive(tasks[k])
    ensures forall j :: i <= j < k ==> IsLive(tasks[j])
    decreases |tasks| - i
  {
    if i == |tasks| || !IsLive(tasks[i]) then i else FreeTask(tasks, i + 1)
  }

  /** The process of the current task, or 0 when its slot is unused. */
  function CurrentPid(s: Sched): int
    requires Shaped(s)
  {
    if s.tasks[s.current].state == Unused then 0 else s.tasks[s.current].pid
  }

  // ----- Creation -----

  /** A new process, and its identifier or 0. */
  function CreateProcess(s: Sched, parent: int, cloneOk: bool): (Sched, int)
    requires Shaped(s)
  {
    var i := FreeProcess(s.procs, 0);
    if i == |s.procs| then (s, 0) else
      var pid := s.nextPid;
      var s' := s.(nextPid := (s.nextPid + 1) % TWO32);
      if !(s.processCount == 0 && parent == 0) && !cloneOk then
        (s'.(procs := s.procs[i := NO_PROCESS]), 0)
      else
        (s'.(procs := s.procs[i := Process(true, pid, parent, 0)], processCount := (s.processCount + 1) % TWO32), pid)
  }

  /** A new task of an existing process, and its identifier as a signed number or -1.  The slot is cleared
      before the stack is allocated. */
  function CreateTask(s: Sched, pid: int, entryOk: bool, ring: int, stackOk: bool): (Sched, int)
    requires Shaped(s)
  {
    var p := FindProcess(s.procs, pid, 0);
    var i := FreeTask(s.tasks, 0);
    if !entryOk || p == |s.procs| || i == |s.tasks| then (s, -1)
    else if !stackOk then (s.(tasks := s.tasks[i := NO_TASK]), -1)
    else
      (s.(tasks := s.tasks[i := Task(Runnable, s.nextTid, pid, NO_WAKE, ring)],
          procs := s.procs[p := s.procs[p].(live := (s.procs[p].live + 1) % TWO32)],
          nextTid := (s.nextTid + 1) % TWO32,
          threadCount := (s.threadCount + 1) % TWO32),
       Signed(s.nextTid))
  }

  function RemoveProcess(s: Sched, pid: int): Sched
    requires Shaped(s)
  {
    var p := FindProcess(s.procs, pid, 0);
    if p == |s.procs| then s else
      s.(procs := s.procs[p := NO_PROCESS],
         processCount := if s.processCount > 0 then s.processCount - 1 else s.processCount)
  }

  /** A process with its first task, and its identifier or -1.  The process is removed again when the task's
      identifier reads as negative. */
  function CreateProcessTask(s: Sched, entryOk: bool, cloneOk: bool, stackOk: bool): (Sched, int)
    requires Shaped(s)
  {
    var (s1, pid) := CreateProcess(s, CurrentPid(s), cloneOk);
    if pid == 0 then (s1, -1) else
      var (s2, tid) := CreateTask(s1, pid, entryOk, 0, stackOk);
      if tid < 0 then (RemoveProcess(s2, pid), -1) else (s2, Signed(pid))
  }

  /** A process with its first user task, and its identifier or -1.  The process is removed again when there is
      no slot or no stack. */
  function CreateRing3Task(s: Sched, cloneOk: bool, stackOk: bool): (Sched, int)
    requires Shaped(s)
  {
    var (s1, pid) := CreateProcess(s, CurrentPid(s), cloneOk);
    if pid == 0 || FindProcess(s1.procs, pid, 0) == |s1.procs| then (s1, -1) else
      var s2 := CreateTask(s1, pid, true, 3, stackOk).0;
      if FreeTask(s1.tasks, 0) == |s1.tasks| || !stackOk then (RemoveProcess(s2, pid), -1) else (s2, Signed(pid))
  }

  // ----- Steps of the current task -----

  function ExitCurrent(s: Sched): Sched
    requires Shaped(s)
  {
    var t := s.tasks[s.current];
    if !IsLive(t) then s else
      var p := FindProcess(s.procs, t.pid, 0);
      s.(tasks := s.tasks[s.current := t.(state := Exited, wake := NO_WAKE)],
         procs := if p < |s.procs| && s.procs[p].live > 0
                  then s.procs[p := s.procs[p].(live := s.procs[p].live - 1)] else s.procs,
         threadCount := if s.threadCount > 0 then s.threadCount - 1 else s.threadCount)
  }

  /** The source does not look at the state of the current task here, only at whether its slot is used. */
  function SleepCurrent(s: Sched, ticks: int, now: int): (r: Sched)
    requires Shaped(s)
    ensures Shaped(r)
  {
    var t := s.tasks[s.current];
    if ticks == 0 || t.state == Unused then s
    else s.(tasks := s.tasks[s.current := t.(state := Sleeping, wake := (now + ticks) % TWO32)])
  }

  predicate CurrentSleeping(s: Sched, now: int)
    requires Shaped(s)
  {
    s.tasks[s.current].state == Sleeping && now < s.tasks[s.current].wake
  }

  // ----- Timer -----

  function Wake(t: Task, now: int): Task
  {
    if t.state == Sleeping && now >= t.wake then t.(state := Runnable, wake := NO_WAKE) else t
  }

  function WakeAll(tasks: seq<Task>, now: int): (r: seq<Task>)
    ensures |r| == |tasks|
    ensures forall i :: 0 <= i < |tasks| ==> r[i] == Wake(tasks[i], now)
  {
    seq(|tasks|, i requires 0 <= i < |tasks| => Wake(tasks[i], now))
  }

  /** The first runnable task after `current`, from offset `o` on; `current` itself when there is none. */
  function PickFrom(tasks: seq<Task>, current: nat, o: nat): (k: nat)
    requires |tasks| == MAX_TASKS && current < MAX_TASKS && 1 <= o <= MAX_TASKS + 1
    ensures k < MAX_TASKS
    decreases MAX_TASKS + 1 - o
  {
    if o > MAX_TASKS then current
    else if tasks[(current + o) % MAX_TASKS].state == Runnable then (current + o) % MAX_TASKS
    else PickFrom(tasks, current, o + 1)
  }

  function Tick(s: Sched, now: int): Sched
    requires Shaped(s)
  {
    if s.tasks[s.current].state == Unused then s else
      var s' := s.(tasks := WakeAll(s.tasks, now));
      if now % QUANTUM != 0 then s' else s'.(current := PickFrom(s'.tasks, s.current, 1))
  }

  // ----- Runs -----

  datatype Event =
    | TickEvent(now: nat)
    | KernelTask(entryOk: bool, stackOk: bool)
    | ProcessTask(entryOk: bool, cloneOk: bool, stackOk: bool)
    | Ring3Task(cloneOk: bool, stackOk: bool)
    | SleepEvent(ticks: nat, now: nat)
    | ExitEvent

  /** Only a live current task can act: one that has exited halts until it is switched away. */
  predicate Enabled(s: Sched, e: Event)
    requires Shaped(s)
  {
    e.TickEvent? || IsLive(s.tasks[s.current])
  }

  function Apply(s: Sched, e: Event): Sched
    requires Shaped(s)
  {
    if !Enabled(s, e) then s else
      match e
      case TickEvent(now) => Tick(s, now)
      case KernelTask(entryOk, stackOk) => CreateTask(s, KERNEL_PID, entryOk, 0, stackOk).0
      case ProcessTask(entryOk, cloneOk, stackOk) => CreateProcessTask(s, entryOk, cloneOk, stackOk).0
      case Ring3Task(cloneOk, stackOk) => CreateRing3Task(s, cloneOk, stackOk).0
      case SleepEvent(ticks, now) => SleepCurrent(s, ticks, now)
      case ExitEvent => ExitCurrent(s)
  }

  function Init(): Sched
  {
    Sched(seq(MAX_TASKS, _ => NO_TASK)[0 := Task(Runnable, 1, KERNEL_PID, NO_WAKE, 0)],
          seq(MAX_PROCESSES, _ => NO_PROCESS)[0 := Process(true, KERNEL_PID, 0, 1)],
          0, 2, 2, 1, 1)
  }
}
