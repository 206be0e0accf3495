/** The invariant of the process table, and that every entry into the kernel keeps it. */
module KernelInvariant {
  import opened Words
  import opened Machine
  import opened ProcessTables

  /** Pids number the slots from 1 and every parent is older than its child. */
  ghost predicate Numbered(ts: seq<Task>) {
    forall i :: 0 <= i < |ts| ==> ts[i].pcb.pid == i + 1 && (i > 0 ==> 1 <= ts[i].pcb.ppid <= i)
  }

  /** Only current may be running, nothing is blocked, and every waiter names another existing pid. */
  ghost predicate StatesOk(ts: seq<Task>, current: int) {
    forall i :: 0 <= i < |ts| ==>
      && ts[i].pcb.state != BLOCKED
      && (ts[i].pcb.state == RUNNING ==> i == current)
      && (ts[i].pcb.state == WAITING ==> 1 <= ts[i].pcb.waitpid <= |ts| && ts[i].pcb.waitpid != i + 1)
  }

  ghost predicate StacksApart(ts: seq<Task>) {
    forall i, j :: 0 <= i < j < |ts| ==> Apart(ts[i].stack, ts[j].stack)
  }

  /** What holds inside the kernel too, between the steps of a system call. */
  ghost predicate Core(k: Kernel) {
    Sane(k) && k.tasks != [] && Numbered(k.tasks) && StatesOk(k.tasks, k.current) && StacksApart(k.tasks)
  }

  /** What holds whenever user code runs: exactly the current task is RUNNING. Before the first
      dispatch there is one READY task. */
  ghost predicate Inv(k: Kernel) {
    && Core(k)
    && (if k.current == -1 then |k.tasks| == 1 && k.tasks[0].pcb.state == READY
        else k.tasks[k.current].pcb.state == RUNNING)
  }

  // ----- consequences of the numbering

  lemma HasExitedAt(ts: seq<Task>, pid: Word)
    requires Numbered(ts)
    ensures HasExited(ts, pid) <==> 1 <= pid <= |ts| && ts[pid - 1].pcb.state == TERMINATED
  {
  }

  lemma CanWaitWhen(k: Kernel, pid: Word)
    requires Numbered(k.tasks) && 0 <= k.current < |k.tasks|
    ensures CanWait(k, pid) <==> 1 <= pid <= |k.tasks| && pid != k.current + 1
    ensures CanWait(k, pid) ==> Target(k.tasks, pid) == pid - 1
  {
    var t := Target(k.tasks, pid);
    if 1 <= pid <= |k.tasks| { assert k.tasks[pid - 1].pcb.pid == pid; }
  }

  // ----- preservation

  lemma SavedKeeps(k: Kernel, frame: nat)
    requires Core(k) && FrameOk(k, frame)
    ensures Core(Saved(k, frame)) && Saved(k, frame).current >= 0
  {
  }

  /** A task may be dispatched when it is READY, or WAITING with its pid already forgotten. */
  lemma DispatchedKeeps(s: Kernel, i: nat)
    requires Sane(s) && Numbered(s.tasks) && StacksApart(s.tasks) && 0 <= s.current && i < |s.tasks|
    requires forall j :: 0 <= j < |s.tasks| && j != i ==>
      && s.tasks[j].pcb.state != BLOCKED
      && (s.tasks[j].pcb.state == RUNNING ==> j == s.current)
      && (s.tasks[j].pcb.state == WAITING ==>
            1 <= s.tasks[j].pcb.waitpid <= |s.tasks| && s.tasks[j].pcb.waitpid != j + 1)
    ensures Inv(Dispatched(s, i))
  {
    var ts := Dispatched(s, i).tasks;
    assert forall j :: 0 <= j < |ts| ==> ts[j] == s.tasks[j].(pcb := s.tasks[j].pcb.(state := ts[j].pcb.state));
    assert forall j :: 0 <= j < |ts| && j != i && j != s.current ==> ts[j] == s.tasks[j];
  }

  lemma WokenKeeps(s: Kernel, w: nat)
    requires Core(s) && s.current >= 0 && w < |s.tasks|
    ensures var v := Woken(s, w);
            && Sane(v) && Numbered(v.tasks) && StacksApart(v.tasks) && v.current == s.current && |v.tasks| == |s.tasks|
            && v.tasks[w].stack == s.tasks[w].stack && v.tasks[w].cpustate == s.tasks[w].cpustate
            && forall j :: 0 <= j < |s.tasks| && j != w ==> v.tasks[j] == s.tasks[j]
  {
  }

  lemma ScheduleKeeps(k: Kernel, frame: nat)
    requires Core(k) && FrameOk(k, frame)
    requires Schedule(k, frame).Returns?
    ensures Inv(Schedule(k, frame).kernel) && Schedule(k, frame).kernel.current >= 0
  {
    var s := Saved(k, frame);
    SavedKeeps(k, frame);
    match Choose(s.tasks, s.current)
    case Switch(i) => DispatchedKeeps(s, i);
    case Wake(w) =>
      WokenKeeps(s, w);
      DispatchedKeeps(Woken(s, w), w);
  }

  lemma WaitKeeps(k: Kernel, pid: Word)
    requires Inv(k) && 0 <= k.current
    ensures Core(WaitTask(k, pid))
  {
  }

  lemma KillKeeps(k: Kernel)
    requires Inv(k) && 0 <= k.current
    ensures Core(KillCurrent(k))
  {
  }

  /** Fork appends one READY task whose saved frame sits where the parent's does. */
  lemma ForkTable(k: Kernel, esp: nat, stack: nat, junk: PCB)
    requires Sane(k) && 0 <= k.current && |k.tasks| < MAX_TASKS
    requires InStack(k.tasks[k.current].stack, esp) && FreshStack(k, stack)
    ensures var k' := Fork(k, esp, stack, junk); var p := k.tasks[k.current];
            && k'.tasks == k.tasks + [Task(stack, stack + (esp - p.stack),
                                           PCB(|k.tasks| + 1, p.pcb.pid, READY, junk.waitpid, junk.waitstate))]
            && k'.current == k.current && |k'.mem| == |k.mem|
  {
  }

  lemma AppendedKeeps(k: Kernel, k': Kernel)
    requires Inv(k) && 0 <= k.current && |k.tasks| < MAX_TASKS
    requires |k'.tasks| == |k.tasks| + 1 && k'.tasks[..|k.tasks|] == k.tasks
    requires k'.current == k.current && |k'.mem| == |k.mem|
    requires var c := k'.tasks[|k.tasks|];
             && FreshStack(k, c.stack) && InStack(c.stack, c.cpustate)
             && c.pcb.pid == |k.tasks| + 1 && c.pcb.ppid == k.tasks[k.current].pcb.pid && c.pcb.state == READY
    ensures Inv(k')
  {
    assert forall i :: 0 <= i < |k.tasks| ==> k'.tasks[i] == k.tasks[i];
  }

  lemma ForkKeeps(k: Kernel, esp: nat, stack: nat, junk: PCB)
    requires Inv(k) && 0 <= k.current && |k.tasks| < MAX_TASKS
    requires InStack(k.tasks[k.current].stack, esp) && FreshStack(k, stack)
    ensures Inv(Fork(k, esp, stack, junk))
  {
    ForkTable(k, esp, stack, junk);
    AppendedKeeps(k, Fork(k, esp, stack, junk));
  }

  lemma HandleInterruptKeeps(k: Kernel, esp: nat, stack: nat, junk: PCB)
    requires Inv(k) && SyscallOk(k, esp, stack)
    requires HandleInterrupt(k, esp, stack, junk).Returns?
    ensures Inv(HandleInterrupt(k, esp, stack, junk).kernel) && HandleInterrupt(k, esp, stack, junk).kernel.current >= 0
  {
    var eax := Load(k.mem, esp + EAX);
    if eax == FORK_INT { ForkKeeps(k, esp, stack, junk); }
    else if eax == EXECVE_INT {}
    else if eax == EXIT_INT { KillKeeps(k); ScheduleKeeps(KillCurrent(k), esp); }
    else if eax == WAITPID_INT {
      var pid := Load(k.mem, esp + EBX);
      WaitKeeps(k, pid);
      if CanWait(k, pid) { ScheduleKeeps(WaitTask(k, pid), esp); }
    }
  }
}
