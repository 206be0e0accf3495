/** The process table as a value, and what each kernel operation does to it. */
module ProcessTables {
  import opened Words
  import opened Machine

  datatype ProcessState = READY | RUNNING | BLOCKED | TERMINATED | WAITING

  datatype PCB = PCB(pid: Word, ppid: Word, state: ProcessState, waitpid: Word, waitstate: ProcessState)

  /** A task: where its stack starts, where its registers were last saved, and its control block. */
  datatype Task = Task(stack: nat, cpustate: nat, pcb: PCB)

  /** current is -1 until the first dispatch. */
  datatype Kernel = Kernel(tasks: seq<Task>, current: int, mem: Memory)

  /** A kernel entry either never comes back or resumes user code at a saved frame. */
  datatype Outcome = Hangs | Returns(kernel: Kernel, frame: nat)

  const MAX_TASKS := 256

  /** The task array is consistent and every saved frame lies in its task's own stack. */
  ghost predicate Sane(k: Kernel) {
    && |k.tasks| <= MAX_TASKS && -1 <= k.current < |k.tasks| && |k.mem| <= TWO32
    && forall i :: 0 <= i < |k.tasks| ==>
         k.tasks[i].stack + STACK_SIZE <= |k.mem| && InStack(k.tasks[i].stack, k.tasks[i].cpustate)
  }

  // ----- choosing the next task

  /** The waiting task of highest index, or -1: the only waiter the scheduler looks at. */
  function LastWaiter(ts: seq<Task>): (w: int)
    ensures -1 <= w < |ts|
    ensures w >= 0 ==> ts[w].pcb.state == WAITING
    ensures forall i :: w < i < |ts| ==> ts[i].pcb.state != WAITING
  {
    if ts == [] then -1
    else if ts[|ts| - 1].pcb.state == WAITING then |ts| - 1
    else LastWaiter(ts[..|ts| - 1])
  }

  /** Some task with this pid has terminated. */
  predicate HasExited(ts: seq<Task>, pid: Word) {
    exists i :: 0 <= i < |ts| && ts[i].pcb.pid == pid && ts[i].pcb.state == TERMINATED
  }

  /** Steps from current round the table to i: 1 for the next slot, n for current itself. */
  function Ahead(current: int, i: int, n: int): int { if i > current then i - current else i - current + n }

  /** The slot d steps round the table from current. */
  function Ring(current: int, d: int, n: int): int { if current + d < n then current + d else current + d - n }

  /** The cyclically first READY task at least d steps ahead, or -1. */
  function NextReady(ts: seq<Task>, current: int, d: nat): (r: int)
    requires 0 <= current < |ts| && 1 <= d <= |ts| + 1
    ensures -1 <= r < |ts|
    decreases |ts| + 1 - d
  {
    if d > |ts| then -1
    else if ts[Ring(current, d, |ts|)].pcb.state == READY then Ring(current, d, |ts|)
    else NextReady(ts, current, d + 1)
  }

  /** NextReady finds the nearest READY task at least d steps ahead, and misses none. */
  lemma {:induction false} NextReadyIsNearest(ts: seq<Task>, current: int, d: nat)
    requires 0 <= current < |ts| && 1 <= d <= |ts| + 1
    ensures var r := NextReady(ts, current, d);
            if r >= 0 then
              && ts[r].pcb.state == READY && d <= Ahead(current, r, |ts|)
              && forall j :: 0 <= j < |ts| && ts[j].pcb.state == READY && d <= Ahead(current, j, |ts|)
                   ==> Ahead(current, r, |ts|) <= Ahead(current, j, |ts|)
            else forall j :: 0 <= j < |ts| && ts[j].pcb.state == READY ==> Ahead(current, j, |ts|) < d
    decreases |ts| + 1 - d
  {
    if d <= |ts| && ts[Ring(current, d, |ts|)].pcb.state != READY { NextReadyIsNearest(ts, current, d + 1); }
  }

  datatype Choice = Wake(task: nat) | Switch(task: nat) | Stuck

  function Choose(ts: seq<Task>, current: int): Choice
    requires 0 <= current < |ts|
  {
    var w := LastWaiter(ts);
    if w >= 0 && HasExited(ts, ts[w].pcb.waitpid) then Wake(w)
    else
      var r := NextReady(ts, current, 1);
      if r >= 0 then Switch(r) else Stuck
  }

  // ----- Schedule

  /** Save the interrupted frame; before the first dispatch there is none to save. */
  function Saved(k: Kernel, frame: nat): Kernel
    requires k.tasks != [] && -1 <= k.current < |k.tasks|
  {
    if k.current == -1 then k.(current := 0)
    else k.(tasks := k.tasks[k.current := k.tasks[k.current].(cpustate := frame)])
  }

  /** The waiter's wake-up: forget the pid, leave 1 in the ecx of its saved frame. */
  ghost function Woken(k: Kernel, w: nat): Kernel
    requires w < |k.tasks| && k.tasks[w].cpustate + FRAME_SIZE <= |k.mem|
  {
    k.(tasks := k.tasks[w := k.tasks[w].(pcb := k.tasks[w].pcb.(waitpid := 0))],
       mem := Store(k.mem, k.tasks[w].cpustate + ECX, 1))
  }

  function WithState(t: Task, s: ProcessState): Task { t.(pcb := t.pcb.(state := s)) }

  /** Current goes back to READY unless it waits or has terminated; task i runs. */
  function Dispatched(k: Kernel, i: nat): Kernel
    requires 0 <= k.current < |k.tasks| && i < |k.tasks|
  {
    var c := k.tasks[k.current];
    var ts := if c.pcb.state != WAITING && c.pcb.state != TERMINATED
              then k.tasks[k.current := WithState(c, READY)] else k.tasks;
    k.(tasks := ts[i := WithState(ts[i], RUNNING)], current := i)
  }

  /** The frame handed to the scheduler lies in the current task's stack, once there is one. */
  ghost predicate FrameOk(k: Kernel, frame: nat)
    requires -1 <= k.current < |k.tasks|
  {
    k.current >= 0 ==> InStack(k.tasks[k.current].stack, frame)
  }

  ghost function Schedule(k: Kernel, frame: nat): Outcome
    requires Sane(k) && FrameOk(k, frame)
  {
    if k.tasks == [] then Returns(k, frame)
    else
      var s := Saved(k, frame);
      match Choose(s.tasks, s.current)
      case Stuck => Hangs
      case Switch(i) => Returns(Dispatched(s, i), s.tasks[i].cpustate)
      case Wake(w) => Returns(Dispatched(Woken(s, w), w), s.tasks[w].cpustate)
  }

  // ----- waitpid, exit, fork, execve

  /** The task the search loop of `WaitTask` ends with: the last of that pid, or -1. */
  function Target(ts: seq<Task>, pid: Word): (t: int)
    ensures -1 <= t < |ts|
    ensures t >= 0 ==> ts[t].pcb.pid == pid
    ensures forall i :: t < i < |ts| ==> ts[i].pcb.pid != pid
  {
    if ts == [] then -1
    else if ts[|ts| - 1].pcb.pid == pid then |ts| - 1
    else Target(ts[..|ts| - 1], pid)
  }

  /** The pid names another task of the table. */
  predicate CanWait(k: Kernel, pid: Word)
    requires 0 <= k.current < |k.tasks|
  {
    k.tasks[k.current].pcb.pid != pid && Target(k.tasks, pid) >= 0
  }

  function WaitTask(k: Kernel, pid: Word): Kernel
    requires 0 <= k.current < |k.tasks|
  {
    if CanWait(k, pid) then
      var c := k.tasks[k.current];
      k.(tasks := k.tasks[k.current := c.(pcb := c.pcb.(state := WAITING, waitpid := pid,
                                                        waitstate := k.tasks[Target(k.tasks, pid)].pcb.state))])
    else k
  }

  function KillCurrent(k: Kernel): Kernel
    requires 0 <= k.current < |k.tasks|
  {
    k.(tasks := k.tasks[k.current := WithState(k.tasks[k.current], TERMINATED)])
  }

  /** `AddTask()`: a new READY task at the given address, with the parent's stack contents. The
      wait fields of a new control block are whatever the heap held there. */
  ghost function AddTask(k: Kernel, stack: nat, junk: PCB): Kernel
    requires 0 <= k.current < |k.tasks| < MAX_TASKS
    requires k.tasks[k.current].stack + STACK_SIZE <= |k.mem| && stack + STACK_SIZE <= |k.mem|
  {
    var n := |k.tasks|;
    var pcb := PCB(n + 1, k.tasks[k.current].pcb.pid, READY, junk.waitpid, junk.waitstate);
    k.(tasks := k.tasks + [Task(stack, stack + STACK_SIZE - FRAME_SIZE, pcb)],
       mem := CopyStack(k.mem, k.tasks[k.current].stack, stack))
  }

  /** Fix up a copied child: its frame is at f, with the given ebp and ebx 0; the parent's ebx is its pid. */
  ghost function WithChild(k: Kernel, n: nat, esp: nat, f: nat, ebp: Word, pid: Word): Kernel
    requires n < |k.tasks| && esp + FRAME_SIZE <= |k.mem| && f + FRAME_SIZE <= |k.mem|
  {
    k.(tasks := k.tasks[n := k.tasks[n].(cpustate := f)],
       mem := Store(Store(Store(k.mem, f + EBP, ebp), f + EBX, 0), esp + EBX, pid))
  }

  /** Where the frame at esp in the stack at from lies in a copy of that stack at to. */
  function TwinFrame(esp: nat, from: nat, to: nat): nat
    requires from <= esp
  {
    to + (esp - from)
  }

  /** The child's ebp: moved by the distance of the two stacks modulo 2^32, whatever it points to. */
  function TwinEbp(ebp: Word, from: nat, to: nat): Word { Wrap(ebp + (to - from)) }

  ghost function Fork(k: Kernel, esp: nat, stack: nat, junk: PCB): Kernel
    requires Sane(k) && 0 <= k.current && |k.tasks| < MAX_TASKS
    requires InStack(k.tasks[k.current].stack, esp) && stack + STACK_SIZE <= |k.mem|
  {
    var k1 := AddTask(k, stack, junk);
    var from := k.tasks[k.current].stack;
    WithChild(k1, |k.tasks|, esp,
              TwinFrame(esp, from, stack), TwinEbp(Load(k1.mem, esp + EBP), from, stack), |k.tasks| + 1)
  }

  /** An address in the stack at from, carried over to the stack at to, as fork computes it in 32 bits. */
  function Relocate(a: nat, from: nat, to: nat): Word { Wrap(to + Wrap(a - from)) }

  lemma RelocateInStack(a: nat, from: nat, to: nat)
    requires from <= a < from + STACK_SIZE && to + STACK_SIZE <= TWO32
    ensures Relocate(a, from, to) == TwinFrame(a, from, to)
  {
  }

  lemma RelocateByDifference(a: Word, from: nat, to: nat)
    ensures Relocate(a, from, to) == TwinEbp(a, from, to)
  {
  }

  ghost function Execve(k: Kernel, esp: nat): Kernel
    requires Sane(k) && 0 <= k.current && InStack(k.tasks[k.current].stack, esp)
  {
    var m1 := Store(k.mem, esp + EBP, k.tasks[k.current].stack);
    var m2 := Store(m1, esp + ESP, Load(m1, esp + EBP));
    k.(mem := Store(m2, esp + EIP, Load(m2, esp + EBX)))
  }

  // ----- system calls

  const EXIT_INT := 1
  const FORK_INT := 2
  const WAITPID_INT := 7
  const EXECVE_INT := 11

  /** A stack for a new task: inside memory and apart from every stack in use. */
  ghost predicate FreshStack(k: Kernel, stack: nat) {
    stack + STACK_SIZE <= |k.mem| && forall i :: 0 <= i < |k.tasks| ==> Apart(k.tasks[i].stack, stack)
  }

  /** What a system call needs besides a sane table: fork needs room for one more task. */
  ghost predicate SyscallOk(k: Kernel, esp: nat, stack: nat) {
    && Sane(k) && 0 <= k.current && InStack(k.tasks[k.current].stack, esp)
    && (Load(k.mem, esp + EAX) == FORK_INT ==> |k.tasks| < MAX_TASKS && FreshStack(k, stack))
  }

  ghost function HandleInterrupt(k: Kernel, esp: nat, stack: nat, junk: PCB): Outcome
    requires SyscallOk(k, esp, stack)
  {
    var eax := Load(k.mem, esp + EAX);
    if eax == FORK_INT then Returns(Fork(k, esp, stack, junk), esp)
    else if eax == EXECVE_INT then Returns(Execve(k, esp), esp)
    else if eax == EXIT_INT then Schedule(KillCurrent(k), esp)
    else if eax == WAITPID_INT then
      var pid := Load(k.mem, esp + EBX);
      if CanWait(k, pid) then Schedule(WaitTask(k, pid), esp)
      else Returns(k.(mem := Store(k.mem, esp + ECX, 0xFFFF_FFFF)), esp)
    else Returns(k, esp)
  }
}
