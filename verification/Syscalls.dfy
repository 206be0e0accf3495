/** The system-call handler: registers are read and written in the saved frame, the task manager does the rest. */
module Syscalls {
  import opened Words
  import opened Machine
  import opened ProcessTables
  import opened TaskManagers
  import KernelRuns

  /** The boot sequence: one task, added before any interrupt, starts a run of the kernel. */
  method KernelMain(mem: array<Byte>, stack: nat, entrypoint: Word, junk: PCB) returns (taskManager: TaskManager)
    requires stack + STACK_SIZE <= mem.Length <= TWO32
    modifies mem
    ensures taskManager.Valid() && taskManager.mem == mem && KernelRuns.Boot(taskManager.K())
    ensures var ts, f := taskManager.K().tasks, stack + 4044;
            && ts == [ProcessTables.Task(stack, f, junk.(pid := 1, state := READY))]
            && (forall a :: f <= a < f + 28 ==> mem[a] == 0)
            && Load(mem[..], f + 32) == entrypoint && Load(mem[..], f + 36) == 16 && Load(mem[..], f + 40) == 0x202
  {
    var main := new TaskManagers.Task(mem, stack, entrypoint, 16, junk);
    taskManager := new TaskManager(mem);
    var ok := taskManager.AddInitial(main);
  }

  class SyscallHandler {
    const taskManager: TaskManager

    constructor (taskManager: TaskManager)
      ensures this.taskManager == taskManager
    {
      this.taskManager := taskManager;
    }

    method Fork(esp: nat, stack: nat, junk: PCB)
      requires taskManager.Valid() && Sane(taskManager.K()) && 0 <= taskManager.currentTask
      requires taskManager.numTasks < MAX_TASKS && InStack(taskManager.view[taskManager.currentTask].stack, esp)
      requires FreshStack(taskManager.K(), stack)
      modifies taskManager, taskManager.tasks, taskManager.table, taskManager.mem
      ensures taskManager.Valid()
      ensures taskManager.K() == ProcessTables.Fork(old(taskManager.K()), esp, stack, junk)
    {
      ghost var k := taskManager.K();
      var newTask, from := NewTwin(stack, junk);
      var fixedFrame := FixedFrame(esp, from, newTask.stack);
      var ebp := FixedEbp(esp, from, newTask.stack);
      SetUpChild(esp, newTask, fixedFrame, ebp, |k.tasks|);
    }

    /** The offset of a frame from the stack at from, added to the address of the stack at to. */
    method FixedFrame(esp: nat, from: nat, to: nat) returns (frame: nat)
      requires InStack(from, esp) && to + STACK_SIZE <= TWO32
      ensures frame == TwinFrame(esp, from, to)
    {
      RelocateInStack(esp, from, to);
      frame := Relocate(esp, from, to);
    }

    /** The same for the ebp saved in the frame, which may point anywhere. */
    method FixedEbp(esp: nat, from: nat, to: nat) returns (ebp: Word)
      requires esp + FRAME_SIZE <= taskManager.mem.Length
      ensures ebp == TwinEbp(Load(taskManager.mem[..], esp + EBP), from, to)
    {
      ebp := LoadWord(taskManager.mem, esp + EBP);
      RelocateByDifference(ebp, from, to);
      ebp := Relocate(ebp, from, to);
    }

    /** The new task, and where the current one's stack starts. */
    method NewTwin(stack: nat, junk: PCB) returns (newTask: TaskManagers.Task, from: nat)
      requires taskManager.Valid() && Sane(taskManager.K()) && 0 <= taskManager.currentTask
      requires taskManager.numTasks < MAX_TASKS && FreshStack(taskManager.K(), stack)
      modifies taskManager, taskManager.tasks, taskManager.table, taskManager.mem
      ensures taskManager.Valid() && fresh(newTask)
      ensures taskManager.K() == ProcessTables.AddTask(old(taskManager.K()), stack, junk)
      ensures taskManager.numTasks == old(taskManager.numTasks) + 1
      ensures taskManager.table[old(taskManager.numTasks)] == newTask
      ensures newTask.stack == stack && newTask.pcb.pid == taskManager.numTasks
      ensures from == old(taskManager.view)[old(taskManager.currentTask)].stack
    {
      ghost var k := taskManager.K();
      assert Apart(k.tasks[k.current].stack, stack);
      newTask := taskManager.AddTask(stack, junk);
      var current := taskManager.GetCurrent();
      from := current.stack;
      assert taskManager.view[|k.tasks|] == newTask.View();
    }

    /** Give the copied frame the child's base pointer and return value, the child that frame, and the
        parent the child's pid. */
    method SetUpChild(esp: nat, newTask: TaskManagers.Task, fixedFrame: nat, ebp: Word, ghost n: nat)
      requires taskManager.Valid() && n < taskManager.numTasks && taskManager.table[n] == newTask
      requires esp + FRAME_SIZE <= taskManager.mem.Length && fixedFrame + FRAME_SIZE <= taskManager.mem.Length
      modifies taskManager`view, newTask`cpustate, taskManager.mem
      ensures taskManager.Valid()
      ensures taskManager.K() == WithChild(old(taskManager.K()), n, esp, fixedFrame, ebp, old(newTask.pcb.pid))
    {
      var mem := taskManager.mem;
      StoreWord(mem, fixedFrame + EBP, ebp);
      StoreWord(mem, fixedFrame + EBX, 0);
      taskManager.SetFrame(n, newTask, fixedFrame);
      StoreWord(mem, esp + EBX, newTask.pcb.pid);
    }

    method Execve(esp: nat)
      requires taskManager.Valid() && Sane(taskManager.K()) && 0 <= taskManager.currentTask
      requires InStack(taskManager.view[taskManager.currentTask].stack, esp)
      modifies taskManager.mem
      ensures taskManager.Valid()
      ensures taskManager.K() == ProcessTables.Execve(old(taskManager.K()), esp)
    {
      var mem := taskManager.mem;
      var current := taskManager.GetCurrent();
      StoreWord(mem, esp + EBP, current.stack);
      var ebp := LoadWord(mem, esp + EBP);
      StoreWord(mem, esp + ESP, ebp);
      var ebx := LoadWord(mem, esp + EBX);
      StoreWord(mem, esp + EIP, ebx);
    }

    /** The interrupt entry, on every input on which it comes back. The stack and the uninitialised
        control block are what the heap provides should the call be fork. */
    method HandleInterrupt(esp: nat, stack: nat, junk: PCB) returns (next: nat)
      requires taskManager.Valid() && SyscallOk(taskManager.K(), esp, stack)
      requires ProcessTables.HandleInterrupt(taskManager.K(), esp, stack, junk).Returns?
      modifies taskManager, taskManager.tasks, taskManager.table, taskManager.mem
      ensures taskManager.Valid()
      ensures Returns(taskManager.K(), next) == ProcessTables.HandleInterrupt(old(taskManager.K()), esp, stack, junk)
    {
      var mem := taskManager.mem;
      next := esp;
      var eax := LoadWord(mem, esp + EAX);
      if eax == FORK_INT {
        Fork(esp, stack, junk);
      } else if eax == EXECVE_INT {
        Execve(esp);
      } else if eax == EXIT_INT {
        next := Exit(esp);
      } else if eax == WAITPID_INT {
        var pid := LoadWord(mem, esp + EBX);
        next := WaitPid(esp, pid);
      }
    }

    /** The exit case of the switch. */
    method Exit(esp: nat) returns (next: nat)
      requires taskManager.Valid() && Sane(taskManager.K()) && 0 <= taskManager.currentTask
      requires InStack(taskManager.view[taskManager.currentTask].stack, esp)
      requires Schedule(ProcessTables.KillCurrent(taskManager.K()), esp).Returns?
      modifies taskManager, taskManager.table, taskManager.mem
      ensures taskManager.Valid()
      ensures Returns(taskManager.K(), next) == Schedule(ProcessTables.KillCurrent(old(taskManager.K())), esp)
    {
      taskManager.KillCurrent();
      next := taskManager.Schedule(esp);
    }

    /** The waitpid case of the switch. */
    method WaitPid(esp: nat, pid: Word) returns (next: nat)
      requires taskManager.Valid() && Sane(taskManager.K()) && 0 <= taskManager.currentTask
      requires InStack(taskManager.view[taskManager.currentTask].stack, esp)
      requires CanWait(taskManager.K(), pid) ==> Schedule(ProcessTables.WaitTask(taskManager.K(), pid), esp).Returns?
      modifies taskManager, taskManager.table, taskManager.mem
      ensures taskManager.Valid()
      ensures Returns(taskManager.K(), next) ==
              var k := old(taskManager.K());
              if CanWait(k, pid) then Schedule(ProcessTables.WaitTask(k, pid), esp)
              else Returns(k.(mem := Store(k.mem, esp + ECX, 0xFFFF_FFFF)), esp)
    {
      next := esp;
      var found := taskManager.WaitTask(pid);
      if found == 0 {
        StoreWord(taskManager.mem, esp + ECX, 0xFFFF_FFFF);
      } else {
        next := taskManager.Schedule(esp);
      }
    }
  }

  /** The interrupts that do something: the timer's, and the system call's, which the handler registers
      for at 0x80 plus the hardware offset of 0x20. */
  const TIMER_INTERRUPT := 0x20
  const SYSCALL_INTERRUPT := 0xA0

  class InterruptManager {
    const taskManager: TaskManager
    const handler: SyscallHandler

    constructor (taskManager: TaskManager, handler: SyscallHandler)
      ensures this.taskManager == taskManager && this.handler == handler
    {
      this.taskManager := taskManager;
      this.handler := handler;
    }

    /** Each entry into the kernel is one of the two events of a run, or leaves everything as it is. */
    method DoHandleInterrupt(interrupt: Byte, esp: nat, stack: nat, junk: PCB) returns (next: nat)
      requires handler.taskManager == taskManager && taskManager.Valid()
      requires interrupt == TIMER_INTERRUPT ==>
                 Sane(taskManager.K()) && FrameOk(taskManager.K(), esp) && Schedule(taskManager.K(), esp).Returns?
      requires interrupt == SYSCALL_INTERRUPT ==>
                 && SyscallOk(taskManager.K(), esp, stack)
                 && ProcessTables.HandleInterrupt(taskManager.K(), esp, stack, junk).Returns?
      modifies taskManager, taskManager.tasks, taskManager.table, taskManager.mem
      ensures taskManager.Valid()
      ensures Returns(taskManager.K(), next) ==
              var k := old(taskManager.K());
              if interrupt == 0x20 then Schedule(k, esp)
              else if interrupt == 0x80 + 0x20 then ProcessTables.HandleInterrupt(k, esp, stack, junk)
              else Returns(k, esp)
    {
      next := esp;
      if interrupt == SYSCALL_INTERRUPT {
        next := handler.HandleInterrupt(esp, stack, junk);
      }
      if interrupt == TIMER_INTERRUPT {
        next := taskManager.Schedule(next);
      }
    }
  }
}
