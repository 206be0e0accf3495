/** The task manager as it is written: task objects updated in place, index loops over the table,
    frames read and written through addresses into physical memory. */
module TaskManagers {
  import opened Words
  import opened Machine
  import opened ProcessTables

  class Task {
    const stack: nat
    var cpustate: nat
    var pcb: PCB

    function View(): ProcessTables.Task
      reads this
    {
      ProcessTables.Task(stack, cpustate, pcb)
    }

    /** A task whose first dispatch enters entrypoint with zeroed registers and interrupts enabled. */
    constructor (mem: array<Byte>, stack: nat, entrypoint: Word, codeSegment: Word, junk: PCB)
      requires stack + STACK_SIZE <= mem.Length
      modifies mem
      ensures View() == ProcessTables.Task(stack, stack + STACK_SIZE - FRAME_SIZE, junk.(state := READY))
      ensures forall a :: 0 <= a < mem.Length && !(cpustate <= a < cpustate + FRAME_SIZE) ==> mem[a] == old(mem[a])
      ensures Load(mem[..], cpustate + EIP) == entrypoint && Load(mem[..], cpustate + CS) == codeSegment
      ensures Load(mem[..], cpustate + EFLAGS) == 0x202
      ensures forall a :: cpustate + EAX <= a < cpustate + EBP + 4 ==> mem[a] == 0
    {
      this.stack := stack;
      cpustate := stack + STACK_SIZE - FRAME_SIZE;
      pcb := junk.(state := READY);
      new;
      ZeroRegisters(mem, cpustate);
      StoreWord(mem, cpustate + EIP, entrypoint);
      StoreWord(mem, cpustate + CS, codeSegment);
      StoreWord(mem, cpustate + EFLAGS, 0x202);
    }
  }

  method ZeroRegisters(mem: array<Byte>, f: nat)
    requires f + FRAME_SIZE <= mem.Length
    modifies mem
    ensures forall a :: f + EAX <= a < f + EBP + 4 ==> mem[a] == 0
    ensures forall a :: 0 <= a < mem.Length && !(f + EAX <= a < f + EBP + 4) ==> mem[a] == old(mem[a])
  {
    StoreZero(mem, f + EAX);
    StoreZero(mem, f + EBX);
    StoreZero(mem, f + ECX);
    StoreZero(mem, f + EDX);
    StoreZero(mem, f + ESI);
    StoreZero(mem, f + EDI);
    StoreZero(mem, f + EBP);
  }

  method StoreZero(mem: array<Byte>, a: nat)
    requires a + 4 <= mem.Length
    modifies mem
    ensures forall i :: a <= i < a + 4 ==> mem[i] == 0
    ensures forall i :: 0 <= i < mem.Length && !(a <= i < a + 4) ==> mem[i] == old(mem[i])
  {
    mem[a], mem[a + 1], mem[a + 2], mem[a + 3] := 0, 0, 0, 0;
  }

  class TaskManager {
    const mem: array<Byte>
    const tasks: array<Task?>
    var numTasks: nat
    var currentTask: int
    /** The tasks in use, and what they hold. */
    ghost var table: seq<Task>
    ghost var view: seq<ProcessTables.Task>

    ghost function K(): Kernel
      reads this, mem
    {
      Kernel(view, currentTask, mem[..])
    }

    ghost predicate Valid()
      reads this, tasks, table
    {
      && tasks.Length == MAX_TASKS && numTasks == |table| == |view| && numTasks <= MAX_TASKS
      && -1 <= currentTask < numTasks
      && (forall i :: 0 <= i < numTasks ==> tasks[i] == table[i])
      && (forall i {:trigger view[i]} {:trigger table[i].View()} :: 0 <= i < numTasks ==> view[i] == table[i].View())
      && (forall i, j :: 0 <= i < j < numTasks ==> table[i] != table[j])
    }

    constructor (mem: array<Byte>)
      ensures Valid() && this.mem == mem && fresh(tasks) && K() == Kernel([], -1, mem[..])
    {
      this.mem := mem;
      tasks := new Task?[MAX_TASKS];
      numTasks := 0;
      currentTask := -1;
      table, view := [], [];
    }

    /** Write a control block through the table. */
    method SetPcb(i: nat, pcb: PCB)
      requires Valid() && i < numTasks
      modifies this`view, table
      ensures Valid() && view == old(view)[i := old(view)[i].(pcb := pcb)]
    {
      assert view[i] == table[i].View();
      tasks[i].pcb := pcb;
      view := view[i := view[i].(pcb := pcb)];
    }

    /** Write a task's frame pointer. */
    method SetFrame(ghost i: nat, task: Task, frame: nat)
      requires Valid() && i < numTasks && task == table[i]
      modifies this`view, task`cpustate
      ensures Valid() && view == old(view)[i := old(view)[i].(cpustate := frame)]
    {
      assert view[i] == table[i].View();
      task.cpustate := frame;
      view := view[i := view[i].(cpustate := frame)];
    }

    method Append(task: Task)
      requires Valid() && numTasks < MAX_TASKS && task !in table
      modifies this`numTasks, this`table, this`view, tasks
      ensures Valid() && table == old(table) + [task] && view == old(view) + [task.View()]
    {
      tasks[numTasks] := task;
      numTasks := numTasks + 1;
      table := table + [task];
      view := view + [task.View()];
    }

    /** `AddTask(Task*)`: only the very first task is given a pid. */
    method AddInitial(task: Task) returns (ok: bool)
      requires Valid() && task !in table
      modifies this`numTasks, this`table, this`view, tasks, task`pcb
      ensures Valid() && ok == (old(numTasks) < 256)
      ensures !ok ==> view == old(view)
      ensures ok ==> view == old(view) + [task.View()]
      ensures task.View() == if old(numTasks) == 0 then old(task.View()).(pcb := old(task.pcb).(pid := 1))
                             else old(task.View())
    {
      if numTasks >= MAX_TASKS {
        return false;
      }
      if numTasks == 0 {
        task.pcb := task.pcb.(pid := 1);
      }
      Append(task);
      return true;
    }

    /** `AddTask()`: a child of the current task at the address the heap provided. */
    method AddTask(stack: nat, junk: PCB) returns (child: Task)
      requires Valid() && 0 <= currentTask && numTasks < MAX_TASKS
      requires view[currentTask].stack + STACK_SIZE <= mem.Length && stack + STACK_SIZE <= mem.Length
      requires Apart(view[currentTask].stack, stack)
      modifies this`numTasks, this`table, this`view, tasks, mem
      ensures Valid() && fresh(child) && table == old(table) + [child]
      ensures K() == ProcessTables.AddTask(old(K()), stack, junk)
    {
      ghost var m := mem[..];
      assert view[currentTask] == table[currentTask].View();
      child := NewChild(stack, tasks[currentTask].pcb.pid, junk);
      CopyParentStack(tasks[currentTask].stack, stack, m);
      Append(child);
    }

    /** A new task numbered after the last, with its parent's pid; its own stack is still to be filled. */
    method NewChild(stack: nat, ppid: Word, junk: PCB) returns (child: Task)
      requires stack + STACK_SIZE <= mem.Length && numTasks < MAX_TASKS
      modifies mem
      ensures fresh(child)
      ensures child.View() == ProcessTables.Task(stack, stack + STACK_SIZE - FRAME_SIZE,
                                                 PCB(numTasks + 1, ppid, READY, junk.waitpid, junk.waitstate))
      ensures forall a :: 0 <= a < mem.Length && !(stack <= a < stack + STACK_SIZE) ==> mem[a] == old(mem[a])
    {
      // the code segment descriptor sits sixteen bytes into the descriptor table
      child := new Task(mem, stack, 0, 16, junk);
      child.pcb := child.pcb.(pid := numTasks + 1, ppid := ppid);
    }

    /** The byte loop of `AddTask()`. Only the child's own stack may differ from memory m before it. */
    method CopyParentStack(from: nat, to: nat, ghost m: Memory)
      requires from + STACK_SIZE <= mem.Length == |m| && to + STACK_SIZE <= mem.Length && Apart(from, to)
      requires forall a :: 0 <= a < mem.Length && !(to <= a < to + STACK_SIZE) ==> mem[a] == m[a]
      modifies mem
      ensures mem[..] == CopyStack(m, from, to)
    {
      var i := 0;
      while i < STACK_SIZE
        invariant 0 <= i <= STACK_SIZE
        invariant forall a :: 0 <= a < mem.Length && !(to <= a < to + STACK_SIZE) ==> mem[a] == m[a]
        invariant forall a :: to <= a < to + i ==> mem[a] == m[from + (a - to)]
      {
        mem[to + i] := mem[from + i];
        i := i + 1;
      }
      CopyUnique(m, from, to, mem[..]);
    }

    method GetCurrent() returns (task: Task)
      requires Valid() && 0 <= currentTask
      ensures task == table[currentTask] && task.View() == view[currentTask]
    {
      assert view[currentTask] == table[currentTask].View();
      task := tasks[currentTask];
    }

    method KillCurrent()
      requires Valid() && 0 <= currentTask
      modifies this`view, table
      ensures Valid() && K() == ProcessTables.KillCurrent(old(K()))
    {
      assert view[currentTask] == table[currentTask].View();
      SetPcb(currentTask, tasks[currentTask].pcb.(state := TERMINATED));
    }

    /** The search loop of `WaitTask`: the last task of that pid, or -1. */
    method FindTarget(pid: Word) returns (target: int)
      requires Valid()
      ensures target == Target(view, pid)
    {
      target := -1;
      var i := 0;
      while i < numTasks
        invariant 0 <= i <= numTasks
        invariant target == Target(view[..i], pid)
      {
        assert view[i] == table[i].View() && view[..i + 1][..i] == view[..i];
        if tasks[i].pcb.pid == pid {
          target := i;
        }
        i := i + 1;
      }
      assert view[..numTasks] == view;
    }

    method WaitTask(pid: Word) returns (result: int)
      requires Valid() && 0 <= currentTask
      modifies this`view, table
      ensures Valid() && K() == ProcessTables.WaitTask(old(K()), pid)
      ensures result == if CanWait(old(K()), pid) then 1 else 0
    {
      assert view[currentTask] == table[currentTask].View();
      if tasks[currentTask].pcb.pid == pid {
        return 0;
      }
      var target := FindTarget(pid);
      if target != -1 {
        assert view[target] == table[target].View() && target != currentTask;
        var pcb := tasks[currentTask].pcb.(state := WAITING, waitpid := pid);
        SetPcb(currentTask, pcb.(waitstate := tasks[target].pcb.state));
        return 1;
      }
      return 0;
    }

    /** The first loop of `Schedule`: the highest-index waiter, or -1. */
    method FindWaiting() returns (waiting: int)
      requires Valid()
      ensures waiting == LastWaiter(view)
    {
      waiting := -1;
      var i := 0;
      while i < numTasks
        invariant 0 <= i <= numTasks
        invariant waiting == LastWaiter(view[..i])
      {
        assert view[i] == table[i].View() && view[..i + 1][..i] == view[..i];
        if tasks[i].pcb.state == WAITING {
          waiting := i;
        }
        i := i + 1;
      }
      assert view[..numTasks] == view;
    }

    /** The second loop: has a task of this pid terminated? */
    method TargetExited(pid: Word) returns (exited: bool)
      requires Valid()
      ensures exited == HasExited(view, pid)
    {
      exited := false;
      var i := 0;
      while i < numTasks
        invariant 0 <= i <= numTasks
        invariant !exited && forall j :: 0 <= j < i ==> !(view[j].pcb.pid == pid && view[j].pcb.state == TERMINATED)
      {
        assert view[i] == table[i].View();
        if tasks[i].pcb.pid == pid {
          if tasks[i].pcb.state == TERMINATED {
            return true;
          }
        }
        i := i + 1;
      }
    }

    /** The third loop, whose guard never fails: it ends because some task is READY, nearer with each round. */
    method FindReady() returns (next: nat)
      requires Valid() && 0 <= currentTask && NextReady(view, currentTask, 1) >= 0
      ensures next == NextReady(view, currentTask, 1)
    {
      var i := currentTask;
      next := 0;
      ghost var d := 0;
      while i < numTasks
        invariant 0 <= d <= numTasks && 0 <= i < numTasks
        invariant i == if d == 0 then currentTask else Ring(currentTask, d, numTasks)
        invariant NextReady(view, currentTask, d + 1) == NextReady(view, currentTask, 1)
        decreases numTasks - d
      {
        NextReadyStep(view, currentTask, d + 1);
        RingStep(currentTask, d, numTasks, i);
        i := i + 1;
        if i >= numTasks {
          i := i % numTasks;
        }
        d := d + 1;
        assert view[i] == table[i].View();
        if tasks[i].pcb.state == READY {
          return i;
        }
      }
    }

    /** Schedule, on every input on which it comes back. */
    method Schedule(frame: nat) returns (next: nat)
      requires Valid() && Sane(K()) && FrameOk(K(), frame) && ProcessTables.Schedule(K(), frame).Returns?
      modifies this`currentTask, this`view, table, mem
      ensures Valid() && table == old(table)
      ensures Returns(K(), next) == ProcessTables.Schedule(old(K()), frame)
    {
      if numTasks <= 0 {
        return frame;
      }
      SaveCurrent(frame);
      next := RunNext();
    }

    /** The rest of `Schedule` once the interrupted frame is saved. */
    method RunNext() returns (next: nat)
      requires Valid() && 0 <= currentTask && !Choose(view, currentTask).Stuck?
      requires forall i :: 0 <= i < numTasks ==> view[i].cpustate + FRAME_SIZE <= mem.Length
      modifies this`currentTask, this`view, table, mem
      ensures Valid() && table == old(table)
      ensures match old(Choose(view, currentTask))
              case Wake(w) => next == old(view)[w].cpustate && K() == Dispatched(Woken(old(K()), w), w)
              case Switch(i) => next == old(view)[i].cpustate && K() == Dispatched(old(K()), i)
              case Stuck => false
    {
      var nextTask := PickNext();
      next := Dispatch(nextTask);
    }

    /** The middle of `Schedule`: wake the last waiter if its target has terminated, otherwise search. */
    method PickNext() returns (picked: nat)
      requires Valid() && 0 <= currentTask && !Choose(view, currentTask).Stuck?
      requires forall i :: 0 <= i < numTasks ==> view[i].cpustate + FRAME_SIZE <= mem.Length
      modifies this`view, table, mem
      ensures Valid()
      ensures match old(Choose(view, currentTask))
              case Wake(w) => picked == w && K() == Woken(old(K()), w)
              case Switch(i) => picked == i && K() == old(K())
              case Stuck => false
    {
      var nextTask := -1;
      var waiting := FindWaiting();
      if waiting != -1 {
        assert view[waiting] == table[waiting].View();
        var exited := TargetExited(tasks[waiting].pcb.waitpid);
        if exited {
          Wake(waiting);
          nextTask := waiting;
        }
      }
      if nextTask == -1 {
        nextTask := FindReady();
      }
      picked := nextTask;
    }

    method Wake(waiting: nat)
      requires Valid() && waiting < numTasks && view[waiting].cpustate + FRAME_SIZE <= mem.Length
      modifies this`view, table, mem
      ensures Valid() && K() == Woken(old(K()), waiting)
    {
      assert view[waiting] == table[waiting].View();
      SetPcb(waiting, tasks[waiting].pcb.(waitpid := 0));
      assert view[waiting] == table[waiting].View();
      StoreWord(mem, tasks[waiting].cpustate + ECX, 1);
    }

    /** The head of `Schedule`: start with task 0, or save the interrupted frame. */
    method SaveCurrent(frame: nat)
      requires Valid() && numTasks > 0
      modifies this`currentTask, this`view, table
      ensures Valid() && K() == Saved(old(K()), frame)
    {
      if currentTask == -1 {
        currentTask := 0;
      } else {
        SetFrame(currentTask, tasks[currentTask], frame);
      }
    }

    /** The tail of `Schedule`: requeue the current task, run the next. */
    method Dispatch(nextTask: nat) returns (frame: nat)
      requires Valid() && 0 <= currentTask && nextTask < numTasks
      modifies this`currentTask, this`view, table
      ensures Valid() && table == old(table)
      ensures K() == Dispatched(old(K()), nextTask) && frame == view[nextTask].cpustate
    {
      assert view[currentTask] == table[currentTask].View();
      if tasks[currentTask].pcb.state != WAITING && tasks[currentTask].pcb.state != TERMINATED {
        SetPcb(currentTask, tasks[currentTask].pcb.(state := READY));
      }
      assert view[nextTask] == table[nextTask].View();
      SetPcb(nextTask, tasks[nextTask].pcb.(state := RUNNING));
      currentTask := nextTask;
      assert view[nextTask] == table[nextTask].View();
      return tasks[nextTask].cpustate;
    }
  }

  /** One round of the search loop's index arithmetic goes one place round the ring. */
  lemma RingStep(current: nat, d: nat, n: nat, i: nat)
    requires current < n && d < n && i == if d == 0 then current else Ring(current, d, n)
    ensures i + 1 <= n && n % n == 0
    ensures (if i + 1 >= n then 0 else i + 1) == Ring(current, d + 1, n)
  {
  }

  lemma NextReadyStep(ts: seq<ProcessTables.Task>, current: nat, d: nat)
    requires current < |ts| && 1 <= d <= |ts| + 1 && NextReady(ts, current, d) >= 0
    ensures d <= |ts|
    ensures NextReady(ts, current, d) ==
            if ts[Ring(current, d, |ts|)].pcb.state == READY then Ring(current, d, |ts|)
            else NextReady(ts, current, d + 1)
  {
  }
}
