# Verified model of the kernel core

A Dafny model of five parts of a small i386 teaching kernel, with proofs about single calls and about
whole runs:

- the process table, scheduler and system calls (`Machine`, `ProcessTable`, `KernelInvariant`,
  `Scheduling`, `KernelRuns`, `KernelTheorems`, `Fairness`, `Deadlocks`, `Forking`, `TaskManager`,
  `Syscalls`);
- the heap allocator (`HeapLayout`, `HeapTheorems`, `HeapRuns`, `MemoryManager`), and the kernel on top
  of it (`KernelHeap`);
- the TCP endpoint (`TcpEndpoint`, `TcpDiagram`, `TcpNetwork`, `TcpZeroData`, `TcpClosing`, `TcpWire`,
  `TcpProvider`, `TcpConnections`, `TcpRefinement`);
- the Internet checksum and the IPv4 headers that carry it (`Checksum`, `Ipv4Header`);
- GDT segment descriptors (`SegmentDescriptor`).

`dafny verify dfyconfig.toml` checks everything.

## How it is modelled

Code that updates objects in place is a class whose methods are proved equal to a function on values:
`TaskManager.Schedule`, say, ends in exactly the `Kernel` value that `ProcessTables.Schedule` computes
from the value before. Everything else is proved about those functions and about runs of them.

*Memory.* Physical memory is one sequence of bytes. A task is the address of its 4096-byte stack, the
address of its saved frame and its control block; a frame is read and written as little-endian words in
memory, at the offsets of the packed `CPUState`. So "no other task's context is disturbed" is a statement
about addresses, and it needs the stacks to be disjoint.

*Kernel runs.* Between two entries user code may write anything anywhere, also into the stacks of other
tasks; an interrupt then enters with a frame in the current task's stack. An entry either returns a kernel
value and a frame, or `Hangs`: the search loop of `Schedule` has no other way out than a READY task. Runs
start from the table the kernel is booted with, one task and no fork yet. Where a theorem is about the
contents of one task's stack, it says what the kernel does to them, and what follows if nobody else writes
there.

*Heap.* The abstract heap is the sequence of chunks in address order. The class keeps chunk headers as
linked objects, and a map from addresses to headers that stands for the source's pointer casts.

*TCP.* A run of the network has one connecting and one listening endpoint. The network keeps every segment
ever sent and may deliver any of them, any number of times, in any order or never, with zero padding appended.
Runs of a provider with any number of sockets (`TcpConnections`) take arbitrary segments from anywhere.

Several functions are also pinned from outside by a lemma that writes the numbers out: the system calls
(`KernelTheorems`), the endpoint's state diagram (`TcpDiagram`), the segment's bytes and the sum its receiver
takes (`TcpWire`), the segment descriptor's fields (`SegmentDescriptor`).

## What turned out not to hold

- The scheduler can search for ever. In every run, an entry never returns exactly when it reaches the
  scheduler while nothing is READY and the task that the highest waiter, the WAITING task of highest index,
  waits for, if anybody waits, is alive (`KernelTheorems.HangsExactlyWhen`; the caller of a `waitpid` counts as
  a waiter and the caller of an `exit` as gone). A second tick right after the first is such an entry
  (`KernelTheorems.FirstTickStartsSecondHangs`), because the current task is still RUNNING while the loop runs.
- `waitpid` can deadlock: from every boot state with room for a second stack two tasks can come to wait for
  each other (`Deadlocks.CrossWaitIsReachable`). If every wait names a younger task, which is how the kernel's own
  programs use it, no `waitpid` deadlocks and two cases are left, a tick while only the current task can run
  and the exit of the last task alive (`KernelTheorems.DisciplinedHangsWhen`).
- Wake-ups are lost: the scheduler looks at the highest waiter only, so it passes over a lower one whose target
  has terminated for as long as a higher one's target is alive (`KernelTheorems.LowerWaiterIsPassedOver`).
  `KernelTheorems.WaiterRunsExactlyWhen` says exactly when a caller of `waitpid` gets the CPU back, and
  `Deadlocks.LostWakeUpIsReachable` is a run from every boot state with room for two more stacks that ends with the
  kernel searching for ever although the task the first one waits for has exited.
- A forked child is not isolated from its parent. Fork relocates the ebp in the frame and no other address in
  the stack (`Forking.WordsAreNotRelocated`). So the first function the child returns from gives it back the
  parent's frame pointer, which lies in the parent's stack exactly when the parent's own does, and never in the
  child's then (`Forking.ChildReturnsToParentsFrame`, over runs `Forking.ChildSharesParentsFrame`). That is what
  happens to the kernel's own programs, whose `fork` is such a function (src/kernel.cpp:222-230): unless the
  caller keeps no frame pointer, a child's next write to a local variable of the caller (lines 264 and 296) goes
  into the parent's stack. Hence no theorem about runs assumes that it does not.
- `Checksum` sign-extends an odd last byte. It computes the standard checksum exactly when the length is
  even or the last byte is below 0x80 (`InternetChecksums.StandardExactlyWhenUnsigned`). Otherwise it computes
  that of the buffer padded with 0xFF in place of 0 (`InternetChecksums.OddSignedIsPaddedWithOnes`). It still
  verifies its own output.
- A TCP payload that is all zeros, or empty, moves the receiver's acknowledgement back by 23, after which
  old data is accepted again. A payload endangers no stream exactly when it has a non-zero byte: for every other
  one some run that sends it once delivers old data twice (`TcpZeroData.SafeDataExactlyWhenMeaningful`).
- A comment at src/multitasking.cpp:79 speaks of pid zero for the first process; the code gives it pid 1,
  and so does the model.

## Model

| member | source | states |
|---|---|---|
| Scheduling.SearchEndsWhen | src/multitasking.cpp:201-215 | the search loop, whose guard never fails, reaches its break if and only if some task is READY |
| Scheduling.ReturnsWhen | src/multitasking.cpp:146-237 | Schedule returns if and only if some task is READY, the highest-index waiter's target is TERMINATED, or the table is empty, where the frame comes straight back |
| Scheduling.ScheduleEffect | src/multitasking.cpp:146-237 | a returning call resumes either the cyclically first READY task, memory untouched, or the last waiter, whose target has terminated, with a 1 in its saved ecx as the only change in memory; the task left keeps its saved frame and every other task is unchanged |
| Scheduling.ExitHangsWhen | src/syscalls.cpp:74-79 | in any state an exit fails to return exactly when nothing is READY and the highest waiter, if any, waits for a task that is alive and is not the one that exits |
| Scheduling.WaitHangsWhen | src/multitasking.cpp:114-195 | in any state a successful waitpid fails to return exactly when nothing is READY and the target of the highest waiter, the caller included, is alive; all in terms of the table before the call |
| Scheduling.WaitReturnsAtOnceWhen | src/multitasking.cpp:178-195 | a successful waitpid comes straight back to its caller, with ecx 1, exactly when its target has terminated and no higher task is waiting |
| Scheduling.AncestryReachesFirst | src/multitasking.cpp:98-103 | following ppid from any task descends strictly, link by link, to the first task |
| KernelInvariant.ScheduleKeeps | src/multitasking.cpp:146-237 | a returning Schedule leaves exactly the current task RUNNING, nothing BLOCKED, waiters naming other existing pids, and frames in their own disjoint stacks |
| KernelInvariant.ForkKeeps | src/syscalls.cpp:22-48 | fork keeps the invariant: pids number the slots, parents are older, the new stack and frame fit in |
| KernelInvariant.HandleInterruptKeeps | src/syscalls.cpp:61-100 | every system call that returns keeps the invariant |
| KernelInvariant.CanWaitWhen | src/multitasking.cpp:117-128 | waitpid finds a target exactly for the pid of another slot, and finds that slot |
| KernelRuns.RunKeeps | src/syscalls.cpp:61-100 | the global invariant holds at every return to user code of every run |
| KernelRuns.TerminatedForEver | src/multitasking.cpp:62-72 | over every run a terminated task stays terminated and is never current again |
| KernelRuns.OffCpuStep | src/multitasking.cpp:154-161 | no entry by anybody alters the table entry or the stack of a task that is off the CPU, whatever user code has written where, until it resumes that task at its own frame |
| KernelRuns.LeavingStep | src/multitasking.cpp:225-236 | the task that loses the CPU is saved with the frame and stack user code left |
| KernelTheorems.ContextIntegrity | src/multitasking.cpp:154-236 | over every run a task resumes at the frame at which it lost the CPU, with its stack exactly as user code has left it by then except for a 1 in ecx after waiting; if nobody wrote into that stack meanwhile, it is the stack the task lost the CPU with |
| KernelTheorems.TasksKeepStacks | src/multitasking.cpp:89-112 | a slot keeps its stack, pid and ppid for ever |
| KernelTheorems.WaitingStaysWaiting | src/multitasking.cpp:133-138 | over every run a caller of waitpid stays WAITING for its pid, with the frame it called from, until it gets the CPU back |
| KernelTheorems.WaitpidIsSound | src/multitasking.cpp:178-195 | over every run such a caller resumes only with its target terminated, at the frame it called from, with ecx 1 and its stack otherwise as user code has left it by then, which is as it was at the call if nobody wrote there |
| KernelTheorems.WaitpidFailsWhen | src/syscalls.cpp:81-85 | waitpid answers -1 and changes nothing else exactly when the pid is the caller's own or names no task |
| KernelTheorems.WaiterRunsExactlyWhen | src/multitasking.cpp:167-195 | over every run, from the call on, an entry gives the caller of waitpid the CPU if and only if it reaches the scheduler, the caller is the highest waiter there, and the pid it named has terminated by then, even by that very exit |
| KernelTheorems.LowerWaiterIsPassedOver | src/multitasking.cpp:167-216 | a waiter whose target has terminated is not run while a higher one's target is alive, and the entry never returns if nothing is READY |
| Fairness.BoundedBypass | src/multitasking.cpp:198-216 | while no waiter is woken, a READY task d places ahead is dispatched within d scheduler calls plus one for each fork in between |
| Fairness.OnlyWaitpidComesBack | src/multitasking.cpp:167-236 | a scheduler call hands the CPU to another task unless it is a waitpid whose caller is the highest waiter and whose target has terminated |
| Fairness.NoStarvation | src/multitasking.cpp:146-237 | over every run, wake-ups included, the CPU is handed over fewer than (n + 1)^3 times, n being the number of tasks, before a READY task gets it |
| KernelTheorems.HangsExactlyWhen | src/syscalls.cpp:61-100 | in every run, the entries that never return are exactly those that reach the scheduler while nothing is READY and the task the highest waiter waits for, if anybody waits, is alive |
| KernelTheorems.DisciplinedHangsWhen | src/syscalls.cpp:61-100 | in a run whose waits all name younger tasks, those are exactly the ticks while only the current task can run and the exit of the last task alive |
| Deadlocks.CrossWaitIsReachable | src/multitasking.cpp:114-144 | from every boot state with room for a second stack some run of three entries leads to a waitpid that never returns: two tasks waiting for each other |
| Deadlocks.LostWakeUpIsReachable | src/multitasking.cpp:167-216 | from every boot state with room for two more stacks some run of six entries leads to an exit that never returns although it terminates the very task the first task waits for |
| KernelTheorems.FirstTickStartsSecondHangs | src/kernel.cpp:209-215 | from the boot state the first tick starts the first task at its initial frame, and a tick as the very next entry does not return |
| KernelTheorems.ExitIsFinal | src/syscalls.cpp:74-79 | over every run a task that has called exit is TERMINATED in every later state and never current again |
| KernelTheorems.OtherCallsDoNothing | src/syscalls.cpp:91-96 | a call whose number is none of 1, 2, 7 and 11, print among them, leaves the task table and every byte of memory as they were, and resumes the caller's own frame |
| KernelTheorems.OtherCallsReturnAtOnce | src/syscalls.cpp:91-96 | over every run such a caller resumes at once with its stack and all other memory as it left it |
| KernelTheorems.ExecveRedirects | src/syscalls.cpp:50-59 | a caller of execve resumes at once, at the address that was in ebx, with esp and ebp of its frame at the start address of its stack; no other byte and no table entry changes |
| Forking.ForkDuplicates | src/syscalls.cpp:22-48 | the child's stack is the parent's byte for byte, except ebx 0 and ebp moved by the distance of the stacks modulo 2^32; the parent's frame changes only in ebx, the child's pid; no other byte changes |
| Forking.ForkReturnsTwice | src/syscalls.cpp:22-48 | over every run the parent resumes at once with a pid no task had, and the child, whenever first dispatched, resumes at the twin of the parent's frame, in the twin of its stack if nobody has written there |
| Forking.WordsAreNotRelocated | src/syscalls.cpp:32-38 | every word above the parent's frame is in the child's stack unchanged, addresses included |
| Forking.ChildReturnsToParentsFrame | src/syscalls.cpp:36-38 | the child's ebp points into its own stack, but the word there is the parent's: it points into the parent's stack if and only if the parent's does, and then not into the child's |
| Forking.ChildSharesParentsFrame | src/syscalls.cpp:22-48 | the same over every run, when the child is first dispatched in a stack nobody has written to |
| ProcessTables.RelocateInStack | src/syscalls.cpp:33-34 | the 32-bit relocation of an address in one stack lands at the same offset of the other |
| ProcessTables.RelocateByDifference | src/syscalls.cpp:37-38 | the 32-bit relocation of any word adds the distance of the stacks modulo 2^32 |
| ProcessTables.NextReadyIsNearest | src/multitasking.cpp:201-215 | the search finds the READY task of least cyclic distance and misses none |
| KernelHeap.AllocatedStackIsFresh | src/memorymanagement.cpp:35-63 | a task allocated by the heap is apart from every stack in use, by the heap invariant |
| KernelHeap.SystemRunKeeps | src/multitasking.cpp:92-96 | over every run of kernel and allocator together both invariants hold and every fork finds a fresh stack |
| KernelHeap.SystemRunIsKernelRun | src/multitasking.cpp:92-96 | the kernel inside such a run follows a kernel run, so every theorem about kernel runs applies to it |
| TaskManagers.Task.constructor | src/multitasking.cpp:8-38 | a new READY task whose saved frame, at the top of its stack, enters the given address with zeroed registers |
| TaskManagers.TaskManager.constructor | src/multitasking.cpp:45-49 | an empty table with nothing scheduled |
| TaskManagers.TaskManager.AddInitial | src/multitasking.cpp:74-87 | refuses a 257th task, appends any other, and gives pid 1 to the very first only |
| TaskManagers.TaskManager.AddTask | src/multitasking.cpp:89-112 | appends a child with the next pid, the parent's pid as ppid, and a copy of the parent's stack as it was on entry |
| TaskManagers.TaskManager.CopyParentStack | src/multitasking.cpp:105-109 | the byte loop copies the whole stack and nothing else |
| TaskManagers.TaskManager.GetCurrent | src/multitasking.cpp:55-60 | the task in the current slot |
| TaskManagers.TaskManager.KillCurrent | src/multitasking.cpp:62-72 | only the current task changes, to TERMINATED |
| TaskManagers.TaskManager.WaitTask | src/multitasking.cpp:114-144 | the current task becomes WAITING for the pid, and 1 is returned, exactly when the pid names another task |
| TaskManagers.TaskManager.FindReady | src/multitasking.cpp:201-215 | the loop ends, at the nearest READY task, whenever there is one |
| TaskManagers.TaskManager.Schedule | src/multitasking.cpp:146-237 | on every input on which the call returns, the objects end in the specified kernel and the specified frame is returned |
| Syscalls.KernelMain | src/kernel.cpp:200-211 | booting leaves a task manager from which runs start: one READY task with pid 1, whose frame at the top of its stack enters the given address in segment 16 with flags 0x202 and zeroed registers |
| Syscalls.SyscallHandler.Fork | src/syscalls.cpp:22-48 | the in-place fork is the fork about which duplication is proved |
| Syscalls.SyscallHandler.Execve | src/syscalls.cpp:50-59 | the in-place execve writes what its specification says, about which `KernelTheorems.ExecveRedirects` shows where the caller resumes |
| Syscalls.SyscallHandler.HandleInterrupt | src/syscalls.cpp:61-100 | on every input on which the entry returns, the objects and the returned frame are those the run theorems speak of; what each call number then does is shown by `ForkReturnsTwice`, `ExecveRedirects`, `ExitIsFinal`, `WaitpidIsSound`, `WaitpidFailsWhen` and `OtherCallsReturnAtOnce`, with the numbers written out |
| Syscalls.InterruptManager.DoHandleInterrupt | src/hardwarecommunication/interrupts.cpp:180-206 | every interrupt is a timer event or a system-call event of a run, or leaves kernel and frame as they are |
| HeapLayouts.SplitDoesNotWrap | src/memorymanagement.cpp:46-51 | none of the 32-bit sums in malloc wraps for a fitting chunk of a heap that starts at 1 or above and ends by 2^32 |
| HeapTheorems.MallocIsExactFirstFit | src/memorymanagement.cpp:35-63 | null, heap unchanged, if and only if no free chunk is strictly larger than the request; otherwise the fitting chunk of lowest address |
| HeapTheorems.MallocKeeps | src/memorymanagement.cpp:35-63 | the invariant is kept and exactly one live chunk is added, new, of the requested size, or of the whole fitting chunk when that exceeds the request by at most a header |
| HeapTheorems.FreeKeeps | src/memorymanagement.cpp:65-89 | the invariant is kept and exactly the freed chunk leaves the live ones |
| HeapTheorems.Canonical | src/memorymanagement.cpp:65-89 | two coalesced tilings of a region with the same live chunks are equal |
| HeapTheorems.LayoutIsFunctionOfLive | src/memorymanagement.cpp:10-89 | the whole chunk list is determined by the live address and size pairs |
| HeapTheorems.FreeUndoesMalloc | src/memorymanagement.cpp:35-89 | freeing the pointer just returned by malloc restores the layout exactly |
| HeapTheorems.FreesCommute | src/memorymanagement.cpp:65-89 | freeing the same pointers in any two orders gives the same layout |
| HeapTheorems.FullRecovery | src/memorymanagement.cpp:10-89 | freeing everything in any order restores the single initial chunk |
| HeapRuns.HeapInvariant | src/memorymanagement.cpp:10-89 | after any run the chunks tile the region, no two neighbours are free, and live chunks match the requests within 16 bytes |
| HeapRuns.PayloadsAreSeparate | src/memorymanagement.cpp:35-89 | after any run the bytes of each held pointer are in bounds and apart from every other's bytes and header |
| HeapRuns.HistoryDoesNotMatter | src/memorymanagement.cpp:10-89 | two runs that leave the same chunks live leave the same layout |
| HeapRuns.NothingLeaks | src/memorymanagement.cpp:10-89 | a run after which nothing is held is back at the initial layout |
| MemoryManagers.MemoryManager.constructor | src/memorymanagement.cpp:10-27 | the linked list is the initial layout: empty for a region below 16 bytes, else one free chunk |
| MemoryManagers.MemoryManager.FindFit | src/memorymanagement.cpp:39-41 | the list walk finds the chunk of lowest address that fits, or null |
| MemoryManagers.MemoryManager.Malloc | src/memorymanagement.cpp:35-63 | the relinked list is well linked both ways and shows exactly the specified layout and pointer |
| MemoryManagers.MemoryManager.AbsorbIntoPrev | src/memorymanagement.cpp:71-79 | splicing a chunk into its left neighbour keeps the list linked both ways and merges the two |
| MemoryManagers.MemoryManager.AbsorbNext | src/memorymanagement.cpp:81-87 | splicing in the right neighbour keeps the list linked both ways and merges the two |
| MemoryManagers.MemoryManager.Free | src/memorymanagement.cpp:65-89 | for a held pointer the relinked list is well linked both ways and shows exactly the specified layout |
| TcpEndpoints.OnlyForward | src/net/tcp.cpp:92-235 | whatever segment arrives, a connection only moves forward, becomes ESTABLISHED only from SYN_RECEIVED on an ACK or SYN_SENT on a SYN and ACK, and stays silent once CLOSED |
| TcpEndpoints.AckCountsPayloadExactlyWhen | src/net/tcp.cpp:220-224 | accepting data, padded or not, moves the acknowledgement by its length if and only if it ends in a non-zero byte |
| TcpEndpoints.ZeroDataMovesBack | src/net/tcp.cpp:220-224 | all-zero or empty data moves the acknowledgement back by one less than the segment's header length in bytes, which is 23 for the segments sent here |
| TcpEndpoints.MatchesWhen | src/net/tcp.cpp:106-115 | a socket is found for a segment exactly if the segment has its four addresses or is a SYN without ACK to a listening socket's own address and port |
| TcpDiagram.FollowsDiagram | src/net/tcp.cpp:120-242 | for every socket, segment and handler's answer, the next state, the numbers kept, the segments sent in their order and what the handler is handed are those of a state diagram written state by state |
| TcpNetworks.StepKeeps | src/net/tcp.cpp:92-235 | sends, disconnects and deliveries keep sequence, acknowledgement and handshake in step at both ends |
| TcpNetworks.StreamSafety | src/net/tcp.cpp:212-227 | over every run with meaningful payloads, what each handler accepted is a prefix of what the other user sent, whatever is lost, repeated, reordered or padded |
| TcpNetworks.NumbersAgree | src/net/tcp.cpp:128-156 | once both ends are ESTABLISHED each sequence number leads the other's acknowledgement by the bytes not yet accepted, modulo 2^32, and equals it before any data |
| TcpNetworks.CloseAccountsForFin | src/net/tcp.cpp:165-173 | once either end has closed and the other is in CLOSE_WAIT, the closer's sequence number and the other's acknowledgement agree if and only if the whole stream was accepted |
| TcpNetworks.EstablishedAtMostOnce | src/net/tcp.cpp:128-205 | over every run each end is ESTABLISHED during one stretch at most |
| TcpNetworks.EstablishedAfterHandshake | src/net/tcp.cpp:128-195 | an end becomes ESTABLISHED only by receiving the segment the handshake calls for, from a peer that has taken its own step |
| TcpClosing.ClosingEndsHaveSentFin | src/net/tcp.cpp:165-173 | over every run an end in CLOSE_WAIT has sent a FIN and ACK with its sequence number, and one in FIN_WAIT1 or FIN_WAIT2 with the number before it |
| TcpClosing.OpenCanClose | src/net/tcp.cpp:165-205 | every run with an open connection goes on, by one disconnect of either end and four deliveries, to one with both ends CLOSED, without a RST, each acknowledging the other's FIN |
| TcpZeroData.Opens | src/net/tcp.cpp:128-156 | from every initial state three deliveries open the connection, with both ends' numbers in step |
| TcpZeroData.ZeroDataBreaksStream | src/net/tcp.cpp:220-224 | for every all-zero payload some run that sends it once delivers old data twice |
| TcpZeroData.SafeDataExactlyWhenMeaningful | src/net/tcp.cpp:212-227 | a payload endangers no stream, in either direction, if and only if it has a non-zero byte |
| TcpWire.BigEndianInvolutive | src/net/tcp.cpp:82-88 | converting byte order twice gives the number back |
| TcpWire.WireRoundTrip | src/net/tcp.cpp:98-101 | reading back the bytes of a segment, behind any zero padding, gives the segment with its padding |
| TcpWire.WireVerifies | src/net/tcp.cpp:319-325 | pseudo header and segment as sent sum to zero |
| TcpWire.ReceiverAccepts | src/net/tcp.cpp:319-325 | the receiver's sum, of the two addresses, protocol 6, the segment's length and the bytes of the segment, is 0xFFFF for every segment sent |
| TcpWire.SegmentOnTheWire | src/net/tcp.cpp:301-317 | every byte of a segment sent but the checksum's: ports, numbers in network order, six header words, flags, window 0xFFFF, urgent pointer 0, on a SYN the option for 1460-byte segments, then the data |
| TcpWire.ParseReads | src/net/tcp.cpp:98-101 | the fields read are the numbers at the offsets of the TCP header, and the data is what lies behind the header length given |
| TcpProviders.TcpProvider.Build | src/net/tcp.cpp:291-325 | the buffer filled field by field and checksummed is the wire form of the segment, of which `TcpWire.SegmentOnTheWire` gives the bytes and `TcpWire.ReceiverAccepts` that its receiver accepts it |
| TcpProviders.TcpProvider.Send | src/net/tcp.cpp:289-331 | one segment with the socket's numbers goes out and only the sequence number moves, by the data's length |
| TcpProviders.TcpProvider.Connect | src/net/tcp.cpp:335-360 | a new SYN_SENT socket aimed at the peer, a SYN sent, the next port taken |
| TcpProviders.TcpProvider.Listen | src/net/tcp.cpp:372-388 | a new LISTEN socket on the given port, nothing sent |
| TcpProviders.TcpProvider.Disconnect | src/net/tcp.cpp:364-369 | FIN and ACK sent from FIN_WAIT1, which takes one sequence number |
| TcpProviders.TcpProvider.SendData | src/net/tcp.cpp:46-52 | data goes out with PSH and ACK |
| TcpProviders.TcpProvider.FindSocket | src/net/tcp.cpp:103-116 | the first socket that listens for the SYN or has all four of the segment's addresses, and none only if there is none |
| TcpProviders.TcpProvider.LastNonZero | src/net/tcp.cpp:220-223 | the loop finds the end of the data stripped of trailing zeros, or 0 |
| TcpProviders.TcpProvider.OnInternetProtocolReceived | src/net/tcp.cpp:92-270 | the first matching socket reacts as the endpoint model says, which `TcpDiagram.FollowsDiagram` spells out; its handler is handed the data and gives the answer, exactly the reaction's segments are sent in order, and no other socket changes |
| TcpConnections.FirstHears | src/net/tcp.cpp:103-116 | among any number of sockets, the one that reacts to a segment is the first that has its four addresses or listens for its SYN; if there is none nothing changes, is sent or is handed over |
| TcpConnections.StrangersIgnored | src/net/tcp.cpp:111-114 | a socket that is not listening and differs from the segment in any of the four addresses neither reacts nor changes |
| TcpConnections.ConnectionHears | src/net/tcp.cpp:103-116 | a socket that has the segment's four addresses is the one that reacts if no other has them or listens at the destination |
| TcpConnections.ConnectionsAreIsolated | src/net/tcp.cpp:92-270 | over every run of a provider with any number of sockets, users sending and disconnecting while segments from anywhere arrive, a connection alone on its addresses ends in the state, has sent the segments and handed over the data that it would with its own segments and user only |
| TcpRefinement.ReceivedBytesAreDelivery | src/net/tcp.cpp:92-270 | the bytes of any sent segment, padded, put through the receive entry of a one-socket provider have exactly the effect of a delivery in the network model |
| TcpRefinement.ReceiveIsDelivery | src/net/tcp.cpp:92-270 | the receive entry of the provider object, called on those bytes, performs that delivery on its socket, its handler and its output |
| TcpRefinement.SendIsUserSend | src/net/tcp.cpp:46-52 | a user's send on the objects is a send in the network model, and the datagram added is the wire form of the segment the model sends |
| TcpRefinement.DisconnectIsUserDisconnect | src/net/tcp.cpp:364-369 | a disconnect on the objects is a disconnect in the network model, and the datagram added is the wire form of its FIN |
| TcpRefinement.ListenThenConnect | src/net/tcp.cpp:335-388 | listening on one provider and connecting to it from another leaves an initial state of the network model, the client aimed at the server and the SYN's bytes on their way |
| InternetChecksums.Checksum | src/net/ipv4.cpp:128-142 | the loops compute the swapped sum in 32 bits, folded to the representative modulo 65535 that is zero only for zero, complemented and swapped; `StandardExactlyWhenUnsigned` and `OddSignedIsPaddedWithOnes` give the value for every buffer in terms of the standard checksum |
| InternetChecksums.FoldCarries | src/net/ipv4.cpp:138-139 | the fold loop ends, at the 16-bit value with the sum's residue modulo 65535 that is zero only if the sum is |
| InternetChecksums.AccumulatorBoundIsExact | src/net/ipv4.cpp:130-136 | the 32-bit accumulator suffices for every buffer of a length exactly up to 65537 words, an odd last byte counting as 256 of them |
| InternetChecksums.SelfVerifies | src/net/ipv4.cpp:109-110 | storing the result in a zeroed word makes the whole buffer check to zero, odd lengths included |
| InternetChecksums.SingleWordErrors | src/net/ipv4.cpp:128-142 | replacing one word of a checked buffer goes unnoticed exactly when the words agree modulo 65535 and the buffer does not become all zeros |
| InternetChecksums.StandardExactlyWhenUnsigned | src/net/ipv4.cpp:132-141 | the result is the complemented sum of native words with no swap, as section 2(B) of RFC 1071 allows, exactly for even lengths and for odd ones whose last byte is below 0x80 |
| InternetChecksums.OddSignedIsPaddedWithOnes | src/net/ipv4.cpp:135-136 | for an odd length and a last byte of 0x80 or more the result is the standard checksum of the buffer with a byte 0xFF behind it |
| Ipv4Headers.StampChecksum | src/net/ipv4.cpp:81-82 | only the checksum field changes; the summed bytes then check to zero if they contain the field, and otherwise the field holds their checksum |
| Ipv4Headers.WriteHeader | src/net/ipv4.cpp:95-110 | every byte outside the checksum field is fixed: version and length, tos, identification, fragment field, time to live, protocol and addresses as the source writes them, the big-endian total length modulo 2^16; and the header checks to zero |
| Ipv4Headers.ReplyInPlace | src/net/ipv4.cpp:74-83 | for every header length within the frame the reply has its addresses exchanged, its other fields kept, and checks to zero over its own header length, unless that is too short to contain the checksum, which is then that of the bytes summed |
| SegmentDescriptors.SegmentDescriptor.constructor | src/gdt.cpp:33-76 | the eight bytes written in place are the encoding |
| SegmentDescriptors.SegmentDescriptor.Base | src/gdt.cpp:78-88 | the bytes' base |
| SegmentDescriptors.SegmentDescriptor.Limit | src/gdt.cpp:90-102 | the bytes' limit |
| SegmentDescriptors.EncodeLayout | src/gdt.cpp:33-76 | the base stands in bytes 2, 3, 4 and 7, the type in byte 5, the limit in bytes 0, 1 and the low half of 6, in pages less one from 65537 on, and the high half of byte 6 is 4 or, for pages, 12 |
| SegmentDescriptors.DecodeLayout | src/gdt.cpp:78-102 | from any eight bytes the base and limit are those fields, the limit scaled to pages only if both high flags are set |
| SegmentDescriptors.BaseRoundTrip | src/gdt.cpp:68-88 | every 32-bit base is decoded as encoded, for any limit and type |
| SegmentDescriptors.LimitRoundTrip | src/gdt.cpp:37-102 | the decoded limit never exceeds the request, falls short by at most 4095, and is exact if and only if the request is at most 65536 or ends in twelve one bits |
| SegmentDescriptors.ReencodeIsStable | src/gdt.cpp:33-102 | a decoded limit decodes to itself |
| SegmentDescriptors.LimitIsTightest | src/gdt.cpp:42-61 | no expressible limit between the decoded one and the request is missed, but for 65536 just above the byte-granular range |

## Left out

- User programs: their code is any change of memory between two entries. It does not reach the task table, which is no part of the model's memory; in the source, stray writes could.
- An interrupt whose frame lies outside the current task's stack: `KernelRuns.Enabled` requires it there. A forked child that returned from the very function that called fork would load esp from its parent's frame pointer and leave its stack; the kernel's own children call execve or exit first.
- Interrupt stubs, descriptor tables, port I/O, PCI, ATA, VGA, network card, keyboard, mouse and GUI code: hardware and user interface with little logic of their own. Interrupts other than the timer and system calls leave the kernel as it is.
- The print system call's output; it changes no kernel state.
- The heap's own header writes during fork are not part of the memory that `Forking.ForkDuplicates` compares; they lie outside every live payload.
- Allocation failure inside `Send`, fork and the creation of sockets; double frees and frees of pointers not held.
- Forking.ForkDuplicates: requires room in the table, because `AddTask()` has no bound check of its own (src/multitasking.cpp:94-96), and a stack apart from the others, which `KernelHeap.SystemRunKeeps` derives from the allocator. The kernel runs on the interrupted task's own stack (src/hardwarecommunication/interruptstubs.s:94-96), so at the time of the copy the parent's stack holds the kernel's own call frames below the saved frame, and so does the child's; the model has there what user code left. Nothing below the frame is live when either task resumes.
- KernelTheorems.ContextIntegrity: for the same reason the bytes below the saved frame, which each entry overwrites with the kernel's call frames, are in the model the ones user code left; likewise in `KernelRuns.LeavingStep`, `KernelRuns.OffCpuStep` and `KernelTheorems.WaitpidIsSound`. From the frame upward the claims are about the memory as it is.
- TaskManagers.TaskManager.AddTask: requires fewer than 256 tasks; with 256 the source writes past its array.
- Syscalls.SyscallHandler.Fork: requires fewer than 256 tasks, as `AddTask()` does.
- TcpProviders.TcpProvider.Build: requires a segment whose length, pseudo header included, is below 2^16; beyond that the source's 16-bit length wraps and it allocates less than it writes (src/net/tcp.cpp:291-294).
- TcpProviders.TcpProvider.Send: requires the same bound on the data.
- TcpProviders.TcpProvider.SendData: requires the same bound on the data, and an ESTABLISHED socket, which the source waits for.
- Ipv4Headers.ReplyInPlace: requires the header length field to lie within the frame; the source does not check it and sums what lies behind.
- TaskManagers.TaskManager.AddInitial: a second task added this way gets no pid in the source; runs are started with one, as the kernel does.
- TcpProviders.TcpProvider.OnInternetProtocolReceived: requires the header length field to lie within the packet; the source then hands a wrapped size to the handler. The cleanup loop at src/net/tcp.cpp:258-266 and the reset branch for a missing socket at lines 244-254 are never entered, so nothing is reclaimed in the model either.
- TcpProviders.TcpProvider.Listen: the remote address of a listening socket holds whatever its memory held; the source leaves it uninitialised.
- TcpNetworks.StreamSafety: covers one connection per provider and fewer than 2^32 sequence numbers; `Disconnect` is called on ESTABLISHED sockets.
- TcpConnections.ConnectionsAreIsolated: the sockets are there from the start; a later `Connect` or `Listen` begins a new run, for which it must again be alone on its addresses.
- `Bind` and the wait loop of the socket's `Send`: the handler is a field, and sending starts once the socket is ESTABLISHED.
- Ethernet framing, ARP, UDP, ICMP and the IPv4 receive length handling: plumbing, represented by deliveries with zero padding.
- The selector functions of the descriptor table, which return constants.
