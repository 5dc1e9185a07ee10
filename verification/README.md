# Verification of the bomboclaat kernel and its installer

This project models the parts of the operating system that keep memory, tasks and disk contents apart, and proves that
they do. `dafny verify dfyconfig.toml` checks everything.

The model has four parts.

* **Frames and page tables.** `Pmm` is the frame bitmap, `Vmm.Machine` physical memory with the page tables in it. A
  tree of tables is stored in the same frames that it hands out, so each frame carries a ghost owner and each tree a
  ghost map from node to frame (`PageTree`, `World`). On top of it are cloning (`Clone`), teardown (`Teardown`), sbrk
  (`Sbrk`), stack faults (`PageFault`), copies to and from user memory (`UserCopy`), ELF loading (`Elf`, `ElfLoad`), the
  first stack (`UserStack`), whole images (`Image`, `NewProgram`) and execve (`Exec`). `Ledger.Memory` holds the memory
  of all tasks and proves over whole runs who owns each frame.
* **Tasks.** `Tasks.Kernel` holds the fields of all task records (`TaskRecords` puts them together task by task, and
  `TaskSteps` says what each step does to every one of them), the ring that the scheduler walks, the slot table, the
  intrusive child lists (`IntrusiveList`) and the shared open files (`OpenFiles`). Every kernel path between two calls
  of `sched` runs with interrupts off and is one method; `waitpid` is cut where it calls `sched`. `System.Machine` joins
  tasks, memory and open files, from boot through task_create and the system calls that concern them: fork, spawn,
  execve, exit, waitpid, signals, sbrk, open, close, read and write, with page faults, timer and idle loop beside them.
* **Kernel heap.** `KernelHeap.Heap`: block headers and the list through them.
* **Installer.** `BlockCache.Device` is the one-block write-back cache, `UndoLog` the record of overwritten bytes, and
  `Installer.Session` the logged writes and their undoing.

How a run is read: the invariants `Ledger.Memory.Sound`, `Tasks.Kernel.Valid` and `System.Machine.Valid` hold after the
constructors, and every method keeps them, so they hold in every reachable state. `System.Machine.Boot` reaches the
first state, and from it `System.Machine.TaskCreate` makes the first user task. The lemmas with such a `requires` are
statements about all reachable states. Every step of `System.Machine` that touches the tasks also ensures `Passes`, with
the exact number of calls of `sched` in it, which the kernel's ghost field `turns` counts: each call brought everybody
who waited before and still waits closer to being chosen. `Passes` composes, and `System.Machine.Run`, which takes any
sequence of steps, ends with the bound of `RunQueue.BoundedWaiting` for that run.

## Model

| member | source | states |
|---|---|---|
| Pmm.Allocator.Init | core/memory/pmm.c:126-168 | the number of frames follows from the greatest region end; the bitmap lies at the end of the first usable region that can hold it; a frame is clear exactly when it lies in a usable region and not under the bitmap |
| Pmm.Allocator.AllocFrame | core/memory/pmm.c:55-67 | the lowest clear frame from 1 on is handed out, or 0 when there is none |
| Pmm.Allocator.AllocContiguous | core/memory/pmm.c:78-104 | the lowest clear run is handed out; 0 exactly when none exists |
| Pmm.Allocator.FreeFrame | core/memory/pmm.c:106-124 | exactly the frame's bit is cleared; when each of the two panics and the already-free case occurs |
| Pmm.TracksSet | core/memory/pmm.c:35-38 | setting one packed bit adds one frame to the set that the bitmap stands for |
| Pmm.TracksClear | core/memory/pmm.c:40-43 | clearing one removes one |
| PackedEntry.OrIntoWord | core/memory/vmm.c:39-42 | ORing flags into a packed entry adds the flags and leaves address and NX alone |
| PackedEntry.ResolvedFlags | core/memory/vmm.c:116-160 | the masks of vmm_resolve keep write and user only where every level grants them, and the other flags of the last level |
| PackedEntry.EntryIsUnique | include/memory/vmm.h:26-36 | two words are equal exactly when address, flags and NX are |
| PackedEntry.FlagsHaveBits | include/memory/vmm.h:26-36 | every set of the twelve flags is the meaning of some low twelve bits |
| PageTree.TranslateIsLookup | core/memory/vmm.c:116-160 | in a tree built by the kernel the four-level walk is lookup in the flat map, with the rights of the leaf |
| Vmm.Machine.Init | core/memory/vmm.c:169-185 | a new root maps nothing, shares the kernel half, stands on a free frame, and leaves all other trees alone |
| Vmm.Machine.MapPage | core/memory/vmm.c:28-80 | success changes the entry of exactly one page; failure changes none; other trees and their pages stay |
| Vmm.Machine.UnmapPage | core/memory/vmm.c:82-103 | exactly one page is removed, or it was not mapped and nothing changes |
| Vmm.Machine.Resolve | core/memory/vmm.c:116-160 | the loop computes the processor's translation |
| Vmm.Machine.ResolveFindsLeaf | core/memory/vmm.c:116-160 | translation in a valid machine gives the frame and the flags of the flat map, for every user address |
| Clone.CloneUserSpace | core/memory/vmm.c:197-263 | every user page of the child is the parent's: shared frames the same, others copies on frames that were free; on failure all books are as before, and memory was short |
| Teardown.Free | core/memory/vmm.c:265-309 | exactly the frames of the tree become free, each freed once |
| Growth.NewTreeUndone | core/memory/vmm.c:260-262 | a tree built and freed again leaves the books as they were |
| UserCopy.CopyToUser | core/memory/userspace.c:53-78 | 0 exactly when the range is valid and every byte of it writable; then exactly those bytes change, across pages |
| UserCopy.CopyFromUser | core/memory/userspace.c:80-105 | 0 exactly when the range is valid and readable; then the bytes are those of virtual memory |
| UserCopy.UserRange | core/memory/userspace.c:29-38 | the ranges that are accepted at all are the empty ones and those from 4096 up to the end of the user half |
| UserCopy.ByteIsWhereTranslated | core/memory/userspace.c:40-51 | a user byte is the one at the physical address to which the processor translates its address |
| UserCopy.CopyStringFromUser | core/memory/userspace.c:107-134 | the length when a NUL lies within reach, and -1 only when none does |
| UserCopy.StringEndsAtFirstNul | core/memory/userspace.c:107-134 | the length of a string is the distance to the first NUL, with all readable up to there |
| UserCopy.ReadAfterWrite | core/memory/userspace.c:53-105 | without aliased frames memory behaves as an array of bytes; `Books.SpaceUnaliased` and `System.Machine.StoredIsRead` say that this is so in every reachable state |
| UserCopy.WriteThenRead | core/memory/userspace.c:53-105 | what copy_to_user stored, copy_from_user fetches |
| UserCopy.WordIsRead | core/memory/userspace.c:53-105 | and a word that was stored is read as that word |
| UserCopy.WriteSparesOthers | core/memory/userspace.c:53-78 | a write through one address space changes no private frame of another |
| Books.SpaceUnaliased | core/memory/vmm.c:197-263 | what every task keeps through fork, execve, sbrk and faults, shared frames mapped at one place at most, means that no frame appears twice in its memory |
| PageFault.UserFault | core/memory/pfault.c:28-52 | which of the five refusals occurs exactly when; 0 adds one zeroed private page and nothing else |
| PageFault.StackReads | core/memory/pfault.c:28-52 | the stack goes on with a page of zeros that can be written, and no other byte changed |
| Sbrk.TaskSbrk | core/tasks/tasks.c:532-596 | the end moves exactly as asked if that keeps it in the heap's range, unless the heap grows and memory is short; then and outside the range -1, with the end where it was; the heap pages follow, new ones zero and private |
| Sbrk.HeapEndsAtBrk | core/tasks/tasks.c:532-596 | of the pages that the heap may ever have, exactly those that begin below brk have frames of their own |
| Sbrk.HeapKeepsBytes | core/tasks/tasks.c:532-596 | what the heap held stays, and a page that was added reads as zeros and can be written |
| Sbrk.RefusedChangesNothing | core/tasks/tasks.c:566-579 | with nothing else in the heap's range, a -1 leaves every page of the task where it was; `Ledger.Memory.Brk` discharges this for every task whose heap range ends below the trampoline |
| Sbrk.ThereAndBack | core/tasks/tasks.c:532-596 | growing and shrinking back leaves every page where it was if and only if nothing else was mapped in the range |
| Elf.Validate | core/tasks/exec.c:59-104 | 0 exactly for the files that satisfy the header, segment and entry conditions |
| Elf.FileHeader | core/tasks/exec.c:59-104 | which headers are accepted, byte by byte of the file: magic, class, encoding, type, machine, the table of program headers, the entry point |
| Elf.ProgramHeader | core/tasks/exec.c:59-104 | where in the file each field of program header i is |
| Elf.AcceptedSegments | core/tasks/exec.c:59-104 | a file is accepted if and only if its header is and its segments keep the limits, written out in numbers, and one with PF_X holds the entry point |
| ElfLoad.Load | core/tasks/exec.c:149-240 | every page of the image has the bytes and rights that the headers ask for; it fails only for lack of memory |
| NewProgram.ImageInMemory | core/tasks/exec.c:149-240 | each byte of a mapped page is that of the image, and it can be read, and written where the rights say so |
| NewProgram.FileByteInMemory | core/tasks/exec.c:149-240 | at p_vaddr + k the program finds byte p_offset + k of its file, for every k below p_filesz; where file parts overlap, that of the last segment |
| NewProgram.OtherBytesAreZero | core/tasks/exec.c:149-240 | every other byte of its pages is zero |
| NewProgram.RightsInMemory | core/tasks/exec.c:149-240 | a page is mapped exactly if a segment lies on it, writable exactly if one with PF_W does, and not executable exactly if the processor has NX and nothing but one segment without PF_X does |
| NewProgram.FirstBounds | core/tasks/exec.c:228-240 | the heap is empty and starts on the first page boundary behind the segments; the stack may grow to one megabyte |
| NewProgram.FirstRanges | core/tasks/exec.c:149-240 | the ranges recorded as code and data are the smallest ones around the segments with and without PF_X |
| NewProgram.SharedRegions | core/tasks/tasks.c:263-278 | the framebuffer is mapped in order and writable, the trampoline readable |
| NewProgram.EntryIsMapped | core/tasks/exec.c:59-104 | the entry page of an accepted file is open to user code and executable |
| UserStack.LayOutArgs | core/tasks/tasks.c:280-355 | strings, pointers and count are laid out in one page; it fails exactly when they do not fit |
| UserStack.SetupUserStack | core/tasks/tasks.c:280-355 | the stack pages are zeroed and private, with the layout in the last; which failure means what |
| NewProgram.StackIsZero | core/tasks/tasks.c:280-355 | the stack pages can be written and are zero but for the last |
| NewProgram.StackPointerShowsCount | core/tasks/tasks.c:280-355 | rsp is a multiple of 16 with argc at it (System V AMD64 ABI, section 3.4.1) |
| NewProgram.PointersEndWithNull | core/tasks/tasks.c:280-355 | the argument pointers end with NULL |
| NewProgram.ArgumentArrives | core/tasks/tasks.c:280-355 | argument i, read through its pointer, is the string that was passed |
| NewProgram.HeapHasRoom | core/tasks/tasks.c:532-596 | a new heap can grow to its full size without meeting another page if and only if brk_start + USER_HEAP_MAX <= USER_SIGTRAMP_VIRT |
| NewProgram.HeapTakesTrampoline | core/tasks/tasks.c:532-596 | otherwise an accepted request replaces the signal trampoline by a heap page |
| NewProgram.TrampolineLost | core/tasks/tasks.c:532-596 | and after shrinking back the trampoline is not mapped any more |
| TopmostFile.AcceptedWithoutRoom | core/tasks/exec.c:59-104 | a file that the loader accepts and whose heap has no room |
| NewProgram.ImageUnaliased | core/tasks/tasks.c:263-278 | no frame appears twice in a new program |
| Image.ImageBuild | core/tasks/exec.c:242-271 | the tree of a new program on frames that were free, or the books as they were; for each failure its cause |
| Exec.CopyArgs | core/tasks/exec.c:324-357 | 0 exactly when a path and a vector of arguments within the limits can be read in user memory |
| Exec.VectorIsLaidOut | core/tasks/exec.c:324-357 | a vector is read if and only if its pointers, 8 bytes each, lie readable one after the other from argv on with a NULL one behind them, and each leads to its string |
| Exec.RequestInMemory | core/tasks/exec.c:324-357 | a request is read if and only if user memory holds an absolute path of at most 255 characters and such a vector |
| Exec.OneVector | core/tasks/exec.c:324-357 | a place in user memory holds at most one such vector |
| Exec.VectorFits | core/tasks/exec.c:324-357 | whatever exec_copy_args accepts fits the stack page, so -E2BIG never comes from the stack builder |
| Exec.LoadFile | core/tasks/exec.c:282-322 | each error code occurs exactly when: no file or descriptor, empty or too large, no room, not read to the end; otherwise the bytes are the file's |
| Exec.Prepare | core/tasks/exec.c:413-436 | failure leaves the books as they were, and each error code has its cause: what cannot be read from user memory, what is wrong with the file, or what there is no memory for |
| Exec.ArgumentsArrive | core/tasks/exec.c:324-357 | the new program finds at its stack pointer the number of pointers before the caller's NULL, as many pointers and a NULL, and through pointer i, byte for byte, the string behind the caller's word at argv + 8 * i |
| Exec.Execve | core/tasks/exec.c:359-411 | the new address space is complete before exactly the old one is given up |
| Ledger.Memory.AllocTask | core/tasks/tasks.c:205-223 | a kernel stack on frames that were free, or nothing; it fails only without a slot, without room for the record or without a run of frames for the stack |
| Ledger.Memory.Release | core/tasks/tasks.c:439-456 | exactly the frames of the task are freed, each once; others keep theirs and their contents |
| Ledger.Memory.Fork | core/tasks/fork.c:30-56 | the child's pages copy the parent's; any failure leaves the books as they were, and memory was short |
| Ledger.Memory.ChildReadsTheSame | core/tasks/fork.c:30-56 | at every user address the child finds the parent's byte and rights, on other frames than the parent but for shared ones |
| Ledger.Memory.Spawn | core/tasks/exec.c:413-458 | a task with a program of its own, or the books as they were and the cause |
| Ledger.Memory.TaskCreate | core/tasks/tasks.c:418-437 | the same for a program that the kernel brings itself, with no task needed before |
| Ledger.Memory.Execve | core/tasks/exec.c:359-411 | the task's memory is the new program's, and only what the old one had is given back |
| Ledger.Memory.Brk | core/tasks/tasks.c:532-596 | the heap step with its exact answer, with the memory of all other tasks as it was; a refusal moves no page if the heap range ends below the trampoline |
| Ledger.Memory.Fault | core/memory/pfault.c:28-52 | the stack step, or the refusal that applies, with the memory of all other tasks as it was |
| Ledger.Memory.Store | core/memory/userspace.c:53-78 | a store of one task changes its own bytes and no other task's memory |
| Ledger.Memory.StoredIsRead | core/memory/userspace.c:53-105 | in every reachable state what a task stores it reads back, and its other bytes stay |
| Ledger.Memory.StoredWordIsRead | core/memory/userspace.c:53-105 | and a word that the kernel stores for a task is what the task reads |
| Ledger.Memory.EveryFrameAccounted | core/tasks/tasks.c:439-456 | in every reachable state each frame in use is the kernel's for good or belongs to a task |
| Ledger.Memory.OneOwner | core/tasks/exec.c:390-408 | no frame belongs to two tasks |
| Ledger.Memory.NothingLeaked | core/tasks/tasks.c:439-456 | with all tasks reaped only the kernel's own frames are in use |
| Ledger.Memory.NewTaskFrames | core/tasks/fork.c:30-56 | every frame of a new task was free before |
| IntrusiveList.ListHeads.InitListHead | include/bomboclaat/types.h:35-39 | a head linked to itself is an empty list, other heads stay |
| IntrusiveList.ListHeads.ListAddTail | include/bomboclaat/types.h:41-49 | the new entry is the last of the cycle, other heads stay |
| IntrusiveList.ListHeads.ListDel | include/bomboclaat/types.h:51-57 | the cycle without the entry, whose links are null; other heads stay |
| RunQueue.SchedBringsCloser | core/tasks/sched.c:39-53 | each choice brings a task that stays ready closer to its turn |
| RunQueue.InsertKeepsWait | core/tasks/tasks.c:382-391 | a task inserted behind the kernel task makes nobody wait longer |
| RunQueue.RemoveKeepsWait | core/tasks/tasks.c:458-470 | nor does removing one |
| RunQueue.BoundedWaiting | core/tasks/sched.c:39-82 | in any history a task that stays ready is chosen within 2 * MAX_TASKS calls of sched, whatever is made or reaped meanwhile |
| KernelState.AdmittedIsOther | core/tasks/tasks.c:382-391 | task_link is a step that passes nobody over |
| KernelState.ReapedIsOther | core/tasks/tasks.c:503-518 | so is task_reap |
| KernelState.AdmittedOk | core/tasks/tasks.c:382-391 | ring, table, lists, states, pids and descriptors stay in order when a task is linked |
| KernelState.AdmittedExactly | core/tasks/tasks.c:382-391 | they do so exactly when the parent has not ended |
| KernelState.EndedOk | core/tasks/tasks.c:472-501 | and when one becomes a zombie |
| KernelState.ReapedOk | core/tasks/tasks.c:503-518 | and when one is taken out |
| KernelState.SwitchedOk | core/tasks/sched.c:55-82 | and when another one runs |
| KernelState.BlockingOk | core/tasks/exit.c:52-59 | and when the current one goes to sleep in waitpid |
| TaskRecords.AdmittedRecords | core/tasks/fork.c:58-76 | the records are those before and one more: ready, child of its parent, the next pid, nothing pending, the handler given, exit code 0 |
| Tasks.Kernel.FindFreeSlot | core/tasks/tasks.c:140-148 | the first free slot; -1 exactly when all are taken |
| Tasks.Kernel.FindByPid | core/tasks/tasks.c:160-168 | the task with the pid; NULL only when no task has it |
| Tasks.Kernel.PidIsUnique | core/tasks/tasks.c:190-193 | no two tasks have the same pid |
| Tasks.Kernel.NoDanglingPointer | core/tasks/tasks.c:458-518 | no next, parent, slot or list pointer leads to a task that is gone |
| TaskSteps.Ending | core/tasks/tasks.c:472-501 | task_terminate, for every record: the task is a zombie with its code and nothing pending, its children have the kernel task as parent, its parent is ready if it was blocked, and nobody else changed |
| TaskSteps.Turning | core/tasks/sched.c:55-82 | sched, for every record: the next task runs, the one that ran is ready if it still was running, and nobody else changed |
| TaskSteps.Leaving | core/tasks/exit.c:26-37 | exit, for every record: ending and then a turn |
| TaskSteps.Sending | core/tasks/ipc/signal.c:24-82 | signal_send, for every record: SIGKILL ends the task, SIGTERM does unless it has a handler; otherwise the signal is pending, and a task that was blocked is ready |
| TaskSteps.Delivering | core/tasks/ipc/signal.c:84-109 | signal_check_user, for every record: the handler is entered once, or the task ends with 128 and the signal's number |
| TaskSteps.Waiting | core/tasks/exit.c:39-67 | one turn of waitpid, for every record: a child that has ended goes and its own code is returned; a pending signal interrupts; else the task is blocked and another one runs |
| TaskSteps.Reaping | core/tasks/tasks.c:503-518 | task_reap, for every record: the zombie's is gone and all others are as before |
| TaskSteps.ReapingOrphans | core/tasks/tasks.c:520-530 | the idle loop: gone are the zombies whose parent is the kernel task, and they alone |
| Tasks.Kernel.Fork | core/tasks/fork.c:30-100 | the records are those before and the child's: ready, child of the caller, its pid the result, nothing pending, the caller's handler; or nothing changed; which error means what |
| Tasks.Kernel.TaskCreate | core/tasks/tasks.c:418-437 | one record more, with the handler given, for a child of the named task, or of the current one when there is none of that pid |
| Tasks.Kernel.TaskTerminate | core/tasks/tasks.c:472-501 | the whole new state: files closed, children given to the kernel task, a waiting parent woken, other tasks' descriptors as they were |
| Tasks.Kernel.UnlinkFromRunqueue | core/tasks/tasks.c:458-470 | the ring without the victim |
| Tasks.Kernel.TaskReap | core/tasks/tasks.c:503-518 | the whole new state, with no trace of the task, its descriptors included; a live task is left alone |
| Tasks.Kernel.ReapOrphans | core/tasks/tasks.c:520-530 | exactly the zombies whose parent is the kernel task go, all other records stay as they are |
| Tasks.Kernel.PickNextTask | core/tasks/sched.c:39-53 | the first ready task round the ring, the kernel task only when nobody else is ready |
| Tasks.Kernel.Sched | core/tasks/sched.c:55-82 | one task runs afterwards, the one that was next, never a zombie |
| Tasks.Kernel.Exit | core/tasks/exit.c:26-37 | the whole new state: that of task_terminate, with the task a zombie with its status, followed by one choice of sched |
| Tasks.Kernel.WaiterIsRight | core/tasks/exit.c:39-67 | whoever is inside waitpid waits for a child that is still there and its own; while it sleeps the child has not ended and no signal is pending |
| Tasks.Kernel.BlockedIsWaiter | core/tasks/exit.c:39-67 | every blocked task is inside waitpid |
| Tasks.Kernel.Waitpid | core/tasks/exit.c:39-67 | -ECHILD exactly when no child has the pid; a child that has ended is reaped at once and its own exit code returned; a pending signal interrupts; otherwise the task sleeps |
| Tasks.Kernel.WaitResume | core/tasks/exit.c:50-66 | after sched the kept pointer still leads to the child, which is reaped exactly when it has ended; otherwise a signal interrupts or the task sleeps again |
| Tasks.Kernel.SignalSend | core/tasks/ipc/signal.c:24-82 | which target is refused; otherwise the whole new state: it has ended, or has the signal pending and is awake |
| Tasks.Kernel.SignalCheckUser | core/tasks/ipc/signal.c:84-109 | a pending signal enters the handler once, with the record otherwise kept, or ends the task |
| Tasks.Kernel.ReplaceProgram | core/tasks/exec.c:390-408 | execve clears the pending signal and takes over the new handler, and changes no other record and nothing else of this one |
| Tasks.Kernel.Open | core/syscall/syscall.c:187-197 | the running task gets the lowest free descriptor and nobody else's table changes |
| Tasks.Kernel.Close | core/syscall/syscall.c:238-241 | the running task gives one up, and the file goes with the last of all tasks |
| Tasks.Kernel.EveryFileIsCounted | fs/vfs/vfs.c:107-162 | in every reachable state ref_count equals the number of descriptors over all tasks and is not 0, and no descriptor leads to a file that is gone |
| OpenFiles.FileTables.VfsOpen | fs/vfs/vfs.c:107-142 | the lowest free descriptor; failure exactly when the path leads nowhere, memory is short or none is free |
| OpenFiles.FileTables.VfsClose | fs/vfs/vfs.c:144-162 | the file goes with its last descriptor and not before |
| OpenFiles.FileTables.VfsRead | fs/vfs/vfs.c:53-73 | the offset moves by what was read, for all who share the file; a bad descriptor changes nothing |
| OpenFiles.FileTables.VfsWrite | fs/vfs/vfs.c:75-95 | likewise by what was written |
| OpenFiles.FileTables.Inherit | core/tasks/tasks.c:369-380 | the child has the parent's descriptors, and every reference count still equals the number of descriptors |
| OpenFiles.FileTables.CloseAll | core/tasks/tasks.c:481-485 | no descriptor of the task is left, those of others stay |
| System.Machine.Boot | core/tasks/tasks.c:225-261 | the joint invariant holds when the kernel task is the only one |
| System.Machine.TaskCreate | core/tasks/tasks.c:418-437 | from there the first task comes, with its memory and its record and no other, or nothing happened and there was a cause |
| System.Machine.Fork | core/tasks/fork.c:30-100 | the child is one record more, with the caller's handler, and a copy of the caller's memory; on failure nothing changed, and each code has its cause; other tasks' memory is untouched |
| System.Machine.Spawn | core/tasks/exec.c:413-458 | likewise with a program of its own and its handler |
| System.Machine.Execve | core/tasks/exec.c:359-411 | the running task has the new program and handler and no signal pending, or all it had, with the cause; others are untouched |
| System.Machine.Waitpid | core/tasks/exit.c:39-67 | the outcomes of the kernel's waitpid; a reaped child's frames are given back with its record, once |
| System.Machine.WaitResume | core/tasks/exit.c:50-66 | likewise after sleeping |
| System.Machine.ReapOrphans | core/tasks/tasks.c:520-530 | orphans go with their memory, everybody else keeps record and memory |
| System.Machine.SignalCheckUser | core/tasks/ipc/signal.c:84-109 | the handler is entered exactly when it can be, and finds USER_SIGTRAMP_VIRT at its stack pointer; otherwise the task ends; the records are those of the kernel's step |
| System.Machine.Fault | core/memory/pfault.c:54-72 | a stack page is added for the running task only, or it ends with status 139, each with its cause |
| System.Machine.Brk | core/tasks/tasks.c:532-596 | the heap step of the running task with its exact answer, with all others untouched; a refusal moves no page if the heap range ends below the trampoline |
| System.Machine.Open | core/syscall/syscall.c:187-197 | the path is the absolute string in user memory; the lowest free descriptor, or the cause |
| System.Machine.Read | core/syscall/syscall.c:198-217 | the bytes reach user memory or -1 comes back; the offset moves in both cases |
| System.Machine.Write | core/syscall/syscall.c:218-236 | the bytes handed on are those of user memory, at most a megabyte; if they cannot be read the file is untouched |
| System.Machine.EveryFileIsCounted | fs/vfs/vfs.c:107-162 | in every reachable state of the joint machine ref_count equals the number of descriptors over all tasks |
| System.Machine.StoredIsRead | core/memory/userspace.c:53-105 | in every reachable state of the joint machine a task's memory behaves as an array of bytes |
| System.Machine.Run | core/tasks/sched.c:39-82 | along any sequence of steps every state is valid, and a task that is ready and not chosen after each step from some point on sees fewer than 2 * MAX_TASKS calls of sched |
| System.Machine.EveryFrameHasOneOwner | core/tasks/tasks.c:439-456 | in every reachable state of the joint machine each frame in use has exactly one owner |
| System.Machine.NothingLeaked | core/tasks/tasks.c:439-456 | once only the kernel task is left, only the kernel's frames are in use |
| KernelHeap.Heap.Init | core/memory/kmalloc.c:38-52 | one free block that covers the region |
| KernelHeap.Heap.Kmalloc | core/memory/kmalloc.c:73-111 | the first free block with enough bytes is taken, cut to the rounded request if 32 bytes or more would be left over, which then make a free block of their own; all other blocks stay, in order; 0 exactly when no free block is large enough for the 64-bit sum, or that is 0; the block holds the size asked for if and only if header and size do not wrap around |
| KernelHeap.RequestIsRounded | core/memory/kmalloc.c:73-107 | what is asked for is size + 24, rounded up to the next multiple of 8, unless that wraps around |
| KernelHeap.GrantsTwice | core/memory/kmalloc.c:54-91 | on a heap of one page a second small request is granted |
| KernelHeap.GrantsTooMuch | core/memory/kmalloc.c:93-107 | a heap of one page grants 2^64 - 1 bytes |
| KernelHeap.Heap.Kfree | core/memory/kmalloc.c:113-172 | exactly the pointer's block goes out of use |
| KernelHeap.Heap.FreeBlock | core/memory/kmalloc.c:113-157 | the blocks still cover the heap, and no two free ones are neighbours |
| KernelHeap.Heap.LiveDisjoint | core/memory/kmalloc.c:73-111 | the bytes of live pointers do not overlap, with their headers |
| KernelHeap.Heap.EmptyHeap | core/memory/kmalloc.c:113-157 | when everything is freed, the heap is the one block it began as |
| HeapCells.LayoutIsUnique | core/memory/kmalloc.c:113-157 | the layout depends only on the blocks in use, not on the order of calls |
| BlockCache.Device.FlushCache | limine-binary/limine.c:266-285 | the physical device becomes what readers saw |
| BlockCache.Device.CacheBlock | limine-binary/limine.c:287-312 | what readers see stays; it fails exactly for a block that is not wholly on the device; what the cache then holds, and that it stays coherent if and only if nothing was cached or the bytes read over it are the same |
| BlockCache.Device.CapacityIs | limine-binary/limine.c:287-312 | what can be read and written ends where the whole blocks of the device end, at size - size % blockSize |
| BlockCache.LosesCoherence | limine-binary/limine.c:287-312 | a device of three bytes on which a failed read loses coherence |
| BlockCache.Device.Read | limine-binary/limine.c:445-465 | any range across any blocks is read as from a flat array; when it fails |
| BlockCache.Device.Write | limine-binary/limine.c:467-522 | any range is written as to a flat array; the physical bytes elsewhere are old or what readers saw |
| UndoLog.ReplayedByte | limine-binary/limine.c:328-334 | backwards, the oldest entry about a byte has the last word |
| UndoLog.UndoRestores | limine-binary/limine.c:524-574 | replaying the log backwards gives the original byte for byte |
| UndoLog.LoggedWrite | limine-binary/limine.c:467-522 | a logged write of any range keeps that true, for what readers see and for what is physically there |
| UndoLog.FileLayout | limine-binary/limine.c:342-380 | the stored log byte by byte: a count, and for each entry where, how many, and the bytes |
| Installer.Session.DeviceWrite | limine-binary/limine.c:467-522 | succeeds exactly within the device and the first 256 writes, adds one entry, and keeps the session undoable |
| Installer.Session.ReverseUninstallData | limine-binary/limine.c:328-334 | the log turned round |
| Installer.Session.Uninstall | limine-binary/limine.c:524-574 | the device is the replay of the log, whatever the cache held |
| Installer.Session.AlwaysUndoable | limine-binary/limine.c:467-574 | in every state of a session the reversed log gives back the original from the device without its cache |
| Installer.Session.RollBack | limine-binary/limine.c:1205-1210 | after a failed installation the device is as it was found |
| Installer.StoreUninstallData | limine-binary/limine.c:342-380 | the file is the count and the entries; it fails exactly when an entry has no bytes |
| Installer.LoadUninstallData | limine-binary/limine.c:382-443 | it succeeds exactly for files that begin with a log, and that log is loaded |
| Installer.UninstallFromFile | limine-binary/limine.c:739-757 | uninstalling from a stored log restores the device |
| Installer.InstallThenUninstall | limine-binary/limine.c:1205-1214 | from a finished session through the file to a device opened anew: it ends as the installer found it |

## Findings

* **task_sbrk can replace the signal trampoline.** `task_sbrk` (core/tasks/tasks.c:532-596) checks only the distance
  from `brk_start`, and `elf_validate` (core/tasks/exec.c:59-104) lets a segment end right below the trampoline. Then
  the heap's range contains the trampoline page, a request that is accepted maps a heap page over it, and shrinking back
  leaves nothing there. `NewProgram.HeapHasRoom` gives the exact condition,
  `brk_start + USER_HEAP_MAX <= USER_SIGTRAMP_VIRT`; `NewProgram.HeapTakesTrampoline` and `NewProgram.TrampolineLost`
  show what happens without it, and `TopmostFile.AcceptedWithoutRoom` is a file that gets there. The frame itself is
  shared and never freed, so ownership of frames holds all the same.
* **A failed block read leaves the cache wrong.** `device_cache_block` (limine-binary/limine.c:287-312) reads over the
  cached bytes before it knows that it can, and keeps the old block number. `BlockCache.Device.CacheBlock` says exactly
  when the cache still holds the block it claims to, and `BlockCache.LosesCoherence` is a device on which it does not.
  `Installer.Session` therefore promises that undoing still works (it drops the cache first), but not that more reads
  do.
* **kmalloc adds header and size without a check.** Within 32 bytes of 2^64 the sum or its rounding wraps around
  (core/memory/kmalloc.c:73-107), and a block for at most 24 bytes is granted, or none. `KernelHeap.Heap.Kmalloc` gives
  the exact condition, and `KernelHeap.GrantsTooMuch` an input.

## Left out

* The nested loops over the four levels in vmm_clone_user_space and vmm_free are one recursive method each.
* Page-table entries are unpacked records with unbounded frame numbers in `Vmm`; `PackedEntry` relates the kernel's bit
  operations to them entry by entry, but memory as a whole is not an array of 64-bit words.
* Accessed and dirty bits that the processor sets in entries are not modelled; the invariant on flags does not use them.
* TLB invalidation, CR3, the direct map of physical memory, FPU areas, stack sentinels, the saved register context and
  the switch itself: no data of the model depends on them.
* Pmm.Allocator.Init: regions are page-aligned and disjoint, as the source takes for granted.
* get_free_frames: it subtracts a count over all frames from one over usable frames and is not the number of free ones.
* Image.ImageBuild: requires that the framebuffer window ends below the stack, which the source takes for granted.
* Exec.LoadFile: the file system is a map from path to contents; whether a descriptor is free, whether the kernel heap
  has room for a buffer, whether a file is read to its end and whether the processor has NX are parameters of the call.
  That open and close around it leave the descriptors of the task as they were is not stated.
* Ledger.Memory.AllocTask: whether the kernel heap has room for the record is a parameter.
* elf_find_sigterm: the address of a program's signal handler is a parameter of spawn, execve and task_create.
* Tasks.Kernel.TaskCreate: requires that the named parent has not ended, which the source does not check; its one caller
  names the kernel task. `KernelState.AdmittedExactly` shows that the invariant holds afterwards exactly in this case.
* System.Machine.TaskCreate: the same.
* The fields of all task records are maps from task to value, and the slot table, the disk and the frames are sequences
  and maps that the methods reassign; the list links, the bitmap, the log and the cache are updated in place.
* Pids are unbounded: that the counter overflows is not modelled.
* KernelHeap.Heap.Kmalloc: clearing the memory is not modelled.
* KernelHeap.Heap.Kfree: freeing twice and pointers into the middle of memory handed out are not modelled, nor are
  stale signatures that a program's own bytes imitate.
* kmalloc_aligned and realloc: the first is refused by kfree, the second copies the old size.
* Contents of kernel memory behind kmalloc pointers.
* OpenFiles.FileTables.VfsOpen: looking up a path, creating and deleting are not modelled; the inode found is a
  parameter.
* OpenFiles.FileTables.VfsRead: the inode operations are not modelled; how much was read is a parameter.
* OpenFiles.FileTables.VfsWrite: how much was written is a parameter.
* System.Machine.Read: the bytes that the file system finds are a parameter, so what one write stores and a later read
  returns are not related.
* System.Machine.Run: getpid, uname, shutdown and the calls for the screen are not among its steps.
* Installer.Session.DeviceWrite: requires data, as every write of the installer has; devices do not fail within their
  size, so the retry loop of uninstall is never taken, and memory for a log entry is always found.
* Logs with an entry of no bytes: `store_uninstall_data` refuses them, as `fwrite` of no bytes reports 0 items, but no
  write of the installer makes such an entry.
* The cached block number (uint64_t)-1 is -1 here.
* GPT and MBR handling, options and configuration of the installer, and lba2chs.
* The initramfs walk, device drivers, interrupt controllers, printing, the shell and user programs.
