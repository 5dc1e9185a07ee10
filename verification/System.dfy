/** Tasks and their memory together: the system calls, faults and signals as the kernel runs them. */
module System {
  import PageEntry
  import opened RunQueue
  import opened PageTree
  import opened World
  import opened Layout
  import opened Books
  import opened TaskRecords
  import Pmm
  import Vmm
  import KernelState
  import OpenFiles
  import Tasks
  import Ledger
  import Exec
  import Image
  import Elf
  import UserStack
  import UserCopy
  import PageFault
  import Sbrk
  import Words

  const SYSCALL_MAX_IO: nat := 1024 * 1024

  // The invariant of the system, part by part.
  datatype Part = OfMemory | OfKernel | OfBoth

  // A file that the kernel makes a program of by itself, with the arguments and the stack pages it chooses.
  datatype Init = Init(data: seq<PageEntry.byte>, argv: seq<UserStack.Arg>, pages: int, nxOn: bool, scratch: bool)

  // Anything that may happen next: a system call of the running task or the kernel's own work, with what the world
  // contributes to it.
  datatype Step =
    | Create(child: nat, parentPid: int, init: Init, sigterm: nat, room: bool)
    | Fork(child: nat, room: bool)
    | Spawn(child: nat, call: Exec.Call, sigterm: nat, room: bool)
    | Execve(call: Exec.Call, sigterm: nat)
    | Exit(status: int)
    | Waitpid(pid: int)
    | Signal(sig: int, target: int)
    | ReturnToUser(rip: nat, rsp: nat)
    | Tick
    | Idle
    | Open(pathVa: nat, inodes: map<seq<PageEntry.byte>, nat>, file: nat)
    | Close(fd: int)
    | Read(fd: int, size: nat, va: nat, room: bool, got: seq<PageEntry.byte>, fails: bool)
    | Write(fd: int, size: nat, va: nat, room: bool, written: nat, fails: bool)
    | Brk(increment: int)
    | Store(va: nat, src: seq<PageEntry.byte>)
    | Fault(addr: nat)

  class Machine {
    const memory: Ledger.Memory
    const kernel: Tasks.Kernel

    ghost function Repr(): set<object> {
      memory.Repr() + kernel.Repr()
    }

    // What the scheduler sees now.
    ghost function Sight(): View
      reads kernel
    {
      KernelState.Seen(kernel.Snap())
    }

    /** Every task but the kernel's has an address space and a kernel stack, and nothing else has. */
    ghost predicate Matching()
      reads memory, kernel
    {
      && (forall t :: t in memory.tasks <==> t in kernel.next && t != kernel.first)
      && (forall t :: t in memory.tasks ==> memory.tasks[t].root != 0)
    }

    // Task t has memory, but is not in the kernel's books yet, or not any more.
    ghost predicate MatchingBut(t: nat)
      reads memory, kernel
    {
      && (forall u :: u in memory.tasks <==> u == t || (u in kernel.next && u != kernel.first))
      && (forall u :: u in memory.tasks ==> memory.tasks[u].root != 0)
    }

    ghost predicate Holds(part: Part)
      reads Repr()
    {
      match part
      case OfMemory => memory.Sound()
      case OfKernel => kernel.Valid() && kernel.Runs()
      case OfBoth => memory.Repr() !! kernel.Repr() && Matching()
    }

    ghost predicate Valid()
      reads Repr()
    {
      forall part {:trigger Holds(part)} :: Holds(part)
    }

    lemma Parts()
      requires Valid()
      ensures Holds(OfMemory) && Holds(OfKernel) && Holds(OfBoth)
      ensures ViewOk(Sight())
    {
      assert Holds(OfKernel);
      kernel.SeenIsOk();
    }

    lemma Whole()
      requires Holds(OfMemory) && Holds(OfKernel) && Holds(OfBoth)
      ensures Valid()
    {
      forall part ensures Holds(part) {
      }
    }

    constructor (memory: Ledger.Memory, kernel: Tasks.Kernel)
      requires memory.Repr() !! kernel.Repr() && memory.Sound() && memory.tasks == map[]
      requires kernel.Valid() && kernel.Runs() && kernel.next.Keys == {kernel.first}
      ensures Valid() && this.memory == memory && this.kernel == kernel
    {
      this.memory := memory;
      this.kernel := kernel;
      new;
      Whole();
    }

    /** The system as booting leaves it: page tables and tasks of nobody but the kernel. */
    static method Boot(pmm: Pmm.Allocator, sh: Sharing, kernelRoot: nat, mem: Mem, first: nat) returns (s: Machine)
      requires pmm.Valid() && Image.SharingOk(sh) && first != 0
      requires kernelRoot in pmm.used && kernelRoot in mem && !IsShared(sh, kernelRoot)
      requires mem[kernelRoot] == PageEntry.Table(sh.kernel) && |sh.kernel| == 512
      requires forall f: nat :: f < pmm.totalFrames || IsShared(sh, f) ==> f in mem
      requires forall f: nat :: IsShared(sh, f) ==> PageEntry.IsPage(mem[f]) && (f < pmm.totalFrames ==> f in pmm.used)
      ensures s.Valid() && s.kernel.first == first && s.kernel.next.Keys == {first} && s.memory.m.pmm == pmm
    {
      var m := new Vmm.Machine.Boot(pmm, sh, kernelRoot, mem);
      s := WithTasks(m, first);
    }

    static method WithTasks(m: Vmm.Machine, first: nat) returns (s: Machine)
      requires m.Valid() && Image.SharingOk(m.sh) && first != 0 && m.trees == map[] && Settled(m.Now())
      requires forall f :: f in m.owner ==> m.owner[f] == Permanent
      ensures s.Valid() && s.kernel.first == first && s.kernel.next.Keys == {first} && s.memory.m == m
    {
      var memory := new Ledger.Memory(m);
      var kernel := new Tasks.Kernel(first);
      s := new Machine(memory, kernel);
    }

    /** When all tasks are reaped, no frame is in use but the kernel's own. */
    lemma NothingLeaked(f: nat)
      requires Valid() && kernel.next.Keys == {kernel.first} && f in memory.m.pmm.used
      ensures f in memory.m.owner && memory.m.owner[f] == Permanent
    {
      Parts();
      assert memory.tasks.Keys == {};
      memory.NothingLeaked(f);
    }

    /** At any time each frame in use is the kernel's for good, or belongs to one task and no other. */
    lemma EveryFrameHasOneOwner(f: nat)
      requires Valid() && f in memory.m.pmm.used
      ensures f in memory.m.owner
      ensures memory.m.owner[f] == Permanent || exists t :: t in kernel.next && memory.Belongs(f, t)
      ensures forall t, u :: memory.Belongs(f, t) && memory.Belongs(f, u) ==> t == u
    {
      Parts();
      memory.EveryFrameAccounted(f);
      forall t, u | memory.Belongs(f, t) && memory.Belongs(f, u) ensures t == u {
        memory.OneOwner(f, t, u);
      }
    }

    /** In every reachable state an open file counts the descriptors of all tasks that refer to it. */
    lemma EveryFileIsCounted(f: nat)
      requires Valid() && f in kernel.files.files
      ensures kernel.files.files[f].refCount == |OpenFiles.Holders(kernel.files.tables, f)| > 0
    {
      Parts();
      kernel.EveryFileIsCounted(f, 0, 0);
    }

    /** In every reachable state the memory of a task is an array of bytes. */
    lemma StoredIsRead(t: nat, va: nat, src: seq<PageEntry.byte>, x: nat)
      requires Valid() && t in memory.tasks
      ensures memory.tasks[t].root in memory.m.trees
      ensures UserCopy.AllOpen(memory.m.mem, memory.m.trees[memory.tasks[t].root], va, |src|, false) ==>
        var nodes := memory.m.trees[memory.tasks[t].root];
        UserCopy.ReadByte(UserCopy.WriteBytes(memory.m.mem, nodes, va, src), nodes, x) ==
          if va <= x < va + |src| then src[x - va] else UserCopy.ReadByte(memory.m.mem, nodes, x)
    {
      Parts();
      memory.StoredIsRead(t, va, src, x);
    }

    // The running task is a user task, with its memory.
    lemma CurrentHasMemory()
      requires Holds(OfKernel) && Holds(OfBoth) && kernel.current != kernel.first
      ensures kernel.current in memory.tasks && memory.tasks[kernel.current].root != 0
      ensures kernel.current in kernel.handler && kernel.current in kernel.pending && |kernel.slots| == MAX_TASKS
    {
      kernel.CurrentIsKnown();
    }

    // Nothing about the memory of tasks other than t has changed.
    twostate predicate OthersUntouched(t: nat)
      reads memory.Repr()
    {
      OthersKept(old(memory.m.Now()), memory.m.Now(), old(memory.tasks), memory.tasks, t)
    }

    // ---------------------------------------------------------------- tasks come

    static ghost predicate SameBut(tasks: map<nat, TaskMem>, tasks': map<nat, TaskMem>, t: nat) {
      && (forall u :: u != t ==> (u in tasks <==> u in tasks'))
      && (forall u :: u != t && u in tasks ==> tasks'[u] == tasks[u])
    }

    // What becomes of the matching when the memory of t comes or changes.
    lemma MemoryAdded(tasks: map<nat, TaskMem>, t: nat)
      requires SameBut(tasks, memory.tasks, t) && (t in memory.tasks ==> memory.tasks[t].root != 0)
      requires forall u :: u in tasks <==> u in kernel.next && u != kernel.first
      requires forall u :: u in tasks ==> tasks[u].root != 0
      ensures t in memory.tasks ==> MatchingBut(t)
      ensures (t in tasks <==> t in memory.tasks) ==> Matching()
    {
    }

    // A task whose memory is there already takes its place among the tasks.
    method Join(p: nat, child: nat, sigterm: nat) returns (result: int)
      requires Holds(OfMemory) && Holds(OfKernel) && memory.Repr() !! kernel.Repr()
      requires p in kernel.next && p in kernel.state && kernel.state[p] != Zombie
      requires child !in kernel.next && child != 0 && !kernel.IsFull() && MatchingBut(child)
      modifies kernel.Repr()
      ensures Holds(OfMemory) && Holds(OfKernel) && Holds(OfBoth) && result > 0 && result == old(kernel.nextPid)
      ensures kernel.IsNewTask(old(kernel.Snap()), p, child, sigterm) && Passes(old(Sight()), Sight(), 0)
      ensures kernel.Records() == old(kernel.Records())[
        child := Task(Ready, parent := p, pid := result, pending := 0, handler := sigterm, exitCode := 0)]
    {
      kernel.FirstIsKnown();
      ghost var v := Sight();
      result := kernel.NewChild(p, child, sigterm, true);
      OtherPasses(v, Sight());
    }

    method CreateMemory(t: nat, init: Init, slot: bool, room: bool)
      returns (rc: int, ghost p: Image.Program, ghost mid: World, ghost top: seq<PageEntry.byte>)
      requires Holds(OfMemory) && Holds(OfKernel) && Holds(OfBoth) && t !in memory.tasks
      modifies memory.Repr()
      ensures Holds(OfMemory) && Holds(OfKernel) && (rc == 0 <==> t in memory.tasks) && (!slot ==> rc != 0)
      ensures SameBut(old(memory.tasks), memory.tasks, t)
      ensures rc != 0 ==>
        CreateFails(old(memory.m.Now()), mid, memory.m.sh, memory.m.pmm.totalFrames, init, slot, room, rc)
      ensures rc != 0 ==> memory.m.owner == old(memory.m.owner) && memory.m.trees == old(memory.m.trees)
      ensures rc == 0 ==> Ledger.Memory.IsNewProgram(mid, memory.m.Now(), p, memory.tasks, t)
      ensures rc == 0 ==> InitBuilt(old(memory.m.Now()), mid, memory.m.sh, init, p, top)
      ensures OthersUntouched(t)
    {
      var program;
      rc, program, mid, top :=
        memory.TaskCreate(t, init.data, init.argv, init.pages, init.nxOn, init.scratch, slot, room);
      p := program;
    }

    static ghost predicate InitBuilt(w: World, mid: World, sh: Sharing, init: Init, p: Image.Program,
                                     top: seq<PageEntry.byte>)
    {
      && Elf.ElfOk(init.data)
      && var im := Image.LoadedImage(init.data, init.nxOn);
         Image.Built(w, mid, sh, im, init.argv, UserStack.StackPages(init.pages), p, top)
    }

    // Why no task can be created.
    static ghost predicate CreateFails(w: World, mid: World, sh: Sharing, total: nat, init: Init, slot: bool,
                                       room: bool, rc: int)
    {
      || !Elf.ElfOk(init.data)
      || (rc == -Ledger.EAGAIN && Ledger.Memory.NoTask(mid, total, slot, room))
      || Image.FillFails(w, total, rc, init.argv, init.scratch,
                         1 + Image.FramesToFill(sh, Elf.Segments(init.data), init.pages))
    }

    /** task_create: the way in which the first task comes, while there is none but the kernel's; result 0 is NULL. */
    method TaskCreate(child: nat, parentPid: int, init: Init, sigterm: nat, room: bool)
      returns (result: int, ghost rc: int, ghost p: Image.Program, ghost mid: World, ghost top: seq<PageEntry.byte>)
      requires Valid() && child !in kernel.next && child != 0
      requires forall t :: t in kernel.pid && kernel.pid[t] == parentPid && t in kernel.state ==>
                 kernel.state[t] != Zombie
      modifies Repr()
      ensures Valid() && Passes(old(Sight()), Sight(), 0) && OthersUntouched(child) && result >= 0
      ensures result > 0 ==> InitBuilt(old(memory.m.Now()), mid, memory.m.sh, init, p, top)
      ensures result > 0 ==> Ledger.Memory.IsNewProgram(mid, memory.m.Now(), p, memory.tasks, child)
      ensures result > 0 ==>
        exists q :: old(kernel.IsParentFor(q, parentPid)) && kernel.IsNewTask(old(kernel.Snap()), q, child, sigterm)
          && kernel.Records() == old(kernel.Records())[
               child := Task(Ready, parent := q, pid := result, pending := 0, handler := sigterm, exitCode := 0)]
      ensures result == 0 ==> kernel.Snap() == old(kernel.Snap()) && memory.m.owner == old(memory.m.owner)
      ensures result == 0 ==> CreateFails(old(memory.m.Now()), mid, memory.m.sh, memory.m.pmm.totalFrames, init,
                                          !old(kernel.IsFull()), room, rc)
    {
      Parts();
      NothingPasses(Sight());
      kernel.CurrentIsKnown();
      var parent := kernel.ParentFor(parentPid);
      var slot := kernel.FindFreeSlot();
      ghost var tasks := memory.tasks;
      var code;
      code, p, mid, top := CreateMemory(child, init, slot >= 0, room);
      rc := code;
      MemoryAdded(tasks, child);
      result := 0;
      if code == 0 {
        result := Join(parent, child, sigterm);
      }
      Whole();
    }

    method ForkMemory(parent: nat, child: nat, room: bool) returns (ok: bool)
      requires Holds(OfMemory) && Holds(OfKernel) && Holds(OfBoth)
      requires parent in memory.tasks && memory.tasks[parent].root != 0 && child !in memory.tasks
      modifies memory.Repr()
      ensures Holds(OfMemory) && Holds(OfKernel)
      ensures parent in memory.tasks && (ok <==> child in memory.tasks)
      ensures SameBut(old(memory.tasks), memory.tasks, child)
      ensures ok ==>
        Ledger.Memory.IsFork(old(memory.m.Now()), memory.m.Now(), memory.m.sh, memory.tasks[parent],
                             memory.tasks[child])
      ensures ok ==> memory.tasks[child].root != 0
      ensures !ok ==> memory.m.owner == old(memory.m.owner) && memory.m.trees == old(memory.m.trees)
      ensures !ok ==> Ledger.Memory.ForkFails(old(memory.m.Now()), memory.m.pmm.totalFrames,
                                              old(memory.tasks)[parent].root, room)
      ensures OthersUntouched(child)
    {
      ok := memory.Fork(parent, child, room);
    }

    /** fork: the child is a copy of its parent in memory and among the tasks, or nothing happened. */
    method Fork(child: nat, room: bool) returns (result: int)
      requires Valid() && child !in kernel.next && child != 0
      modifies Repr()
      ensures Valid() && Passes(old(Sight()), Sight(), 0) && OthersUntouched(child)
      ensures result == -Tasks.EPERM <==> old(kernel.current) == kernel.first
      ensures result > 0 ==>
        child in memory.tasks && old(kernel.current) in memory.tasks && old(kernel.current) in old(kernel.handler)
      ensures result > 0 ==>
        Ledger.Memory.IsFork(old(memory.m.Now()), memory.m.Now(), memory.m.sh, memory.tasks[old(kernel.current)],
                             memory.tasks[child])
      ensures result > 0 ==>
        kernel.IsNewTask(old(kernel.Snap()), old(kernel.current), child, old(kernel.handler)[old(kernel.current)])
      ensures result > 0 ==>
        kernel.Records() == old(kernel.Records())[
          child := Task(Ready, parent := old(kernel.current), pid := result, pending := 0,
                        handler := old(kernel.handler)[old(kernel.current)], exitCode := 0)]
      ensures result <= 0 ==> kernel.Snap() == old(kernel.Snap()) && memory.m.owner == old(memory.m.owner)
      ensures result <= 0 ==> result == -Tasks.EPERM || result == -Tasks.EAGAIN || result == -Tasks.ENOMEM
      ensures result == -Tasks.EAGAIN ==> old(kernel.IsFull())
      ensures result == -Tasks.ENOMEM ==>
        old(kernel.current) in old(memory.tasks)
        && Ledger.Memory.ForkFails(old(memory.m.Now()), memory.m.pmm.totalFrames,
                                   old(memory.tasks)[old(kernel.current)].root, room)
    {
      Parts();
      NothingPasses(Sight());
      Untouched(child);
      if kernel.current == kernel.first {
        Whole();
        return -Tasks.EPERM;
      }
      CurrentHasMemory();
      kernel.CurrentIsKnown();
      var slot := kernel.FindFreeSlot();
      if slot < 0 {
        Whole();
        return -Tasks.EAGAIN;
      }
      result := ForkWithSlot(child, room);
      Whole();
    }

    method ForkWithSlot(child: nat, room: bool) returns (result: int)
      requires Holds(OfMemory) && Holds(OfKernel) && Holds(OfBoth) && child !in kernel.next && child != 0
      requires kernel.current != kernel.first && !kernel.IsFull() && ViewOk(Sight())
      modifies memory.Repr(), kernel.Repr()
      ensures Holds(OfMemory) && Holds(OfKernel) && Holds(OfBoth)
      ensures OthersUntouched(child) && Passes(old(Sight()), Sight(), 0)
      ensures old(kernel.current) in old(memory.tasks)
      ensures result > 0 ==>
        child in memory.tasks && old(kernel.current) in memory.tasks && old(kernel.current) in old(kernel.handler)
      ensures result > 0 ==>
        Ledger.Memory.IsFork(old(memory.m.Now()), memory.m.Now(), memory.m.sh, memory.tasks[old(kernel.current)],
                             memory.tasks[child])
      ensures result > 0 ==>
        kernel.IsNewTask(old(kernel.Snap()), old(kernel.current), child, old(kernel.handler)[old(kernel.current)])
      ensures result > 0 ==>
        kernel.Records() == old(kernel.Records())[
          child := Task(Ready, parent := old(kernel.current), pid := result, pending := 0,
                        handler := old(kernel.handler)[old(kernel.current)], exitCode := 0)]
      ensures result <= 0 ==> result == -Tasks.ENOMEM
      ensures result <= 0 ==> kernel.Snap() == old(kernel.Snap()) && memory.m.owner == old(memory.m.owner)
      ensures result <= 0 ==>
        Ledger.Memory.ForkFails(old(memory.m.Now()), memory.m.pmm.totalFrames,
                                old(memory.tasks)[old(kernel.current)].root, room)
    {
      NothingPasses(Sight());
      CurrentHasMemory();
      kernel.CurrentIsKnown();
      ghost var tasks := memory.tasks;
      var copied := ForkMemory(kernel.current, child, room);
      MemoryAdded(tasks, child);
      if !copied {
        return -Tasks.ENOMEM;
      }
      result := Join(kernel.current, child, kernel.handler[kernel.current]);
    }

    // As long as nothing happens, nobody is touched.
    twostate lemma Untouched(new t: nat)
      requires Holds(OfMemory) && memory.m.Now() == old(memory.m.Now()) && memory.tasks == old(memory.tasks)
      ensures OthersUntouched(t)
    {
      KeptBalanced(memory.m.Now(), memory.m.Now(), memory.m.sh, memory.m.pmm.totalFrames, memory.tasks, memory.holders);
    }

    method SpawnMemory(parent: nat, child: nat, call: Exec.Call, slot: bool, room: bool)
      returns (rc: int, ghost mid: World, ghost o: Exec.Outcome)
      requires Holds(OfMemory) && Holds(OfKernel) && Holds(OfBoth)
      requires parent in memory.tasks && memory.tasks[parent].root != 0 && child !in memory.tasks
      modifies memory.Repr()
      ensures Holds(OfMemory) && Holds(OfKernel) && (rc == 0 <==> child in memory.tasks) && (!slot ==> rc != 0)
      ensures SameBut(old(memory.tasks), memory.tasks, child) && old(memory.tasks)[parent].root in old(memory.m.trees)
      ensures rc <= 0 && (rc != 0 ==> memory.m.owner == old(memory.m.owner) && memory.m.trees == old(memory.m.trees))
      ensures rc != 0 ==>
        Ledger.Memory.SpawnFails(old(memory.m.Now()), mid, memory.m.sh, memory.m.pmm.totalFrames,
                                 old(memory.tasks)[parent].root, call, slot, room, rc)
      ensures rc == 0 ==> Ledger.Memory.IsNewProgram(mid, memory.m.Now(), o.p, memory.tasks, child)
      ensures rc == 0 ==>
        Exec.Prepared(old(memory.m.Now()), mid, memory.m.sh, old(memory.tasks)[parent].root, call, o)
      ensures OthersUntouched(child)
    {
      var p;
      rc, p, mid, o := memory.Spawn(parent, child, call, slot, room);
    }

    /** spawn: a child with a program of its own, or nothing happened. */
    method Spawn(child: nat, call: Exec.Call, sigterm: nat, room: bool)
      returns (result: int, ghost mid: World, ghost o: Exec.Outcome)
      requires Valid() && kernel.current != kernel.first && child !in kernel.next && child != 0
      modifies Repr()
      ensures Valid() && Passes(old(Sight()), Sight(), 0) && OthersUntouched(child)
      ensures old(kernel.current) in old(memory.tasks)
      ensures old(memory.tasks)[old(kernel.current)].root in old(memory.m.trees)
      ensures result > 0 ==> Ledger.Memory.IsNewProgram(mid, memory.m.Now(), o.p, memory.tasks, child)
      ensures result > 0 ==>
        Exec.Prepared(old(memory.m.Now()), mid, memory.m.sh, old(memory.tasks)[old(kernel.current)].root, call, o)
      ensures result > 0 ==> kernel.IsNewTask(old(kernel.Snap()), old(kernel.current), child, sigterm)
      ensures result > 0 ==>
        kernel.Records() == old(kernel.Records())[
          child := Task(Ready, parent := old(kernel.current), pid := result, pending := 0, handler := sigterm,
                        exitCode := 0)]
      ensures result <= 0 ==> kernel.Snap() == old(kernel.Snap()) && memory.m.owner == old(memory.m.owner)
      ensures result <= 0 ==>
        Ledger.Memory.SpawnFails(old(memory.m.Now()), mid, memory.m.sh, memory.m.pmm.totalFrames,
                                 old(memory.tasks)[old(kernel.current)].root, call, !old(kernel.IsFull()), room, result)
    {
      Parts();
      NothingPasses(Sight());
      CurrentHasMemory();
      kernel.CurrentIsKnown();
      var slot := kernel.FindFreeSlot();
      ghost var tasks := memory.tasks;
      result, mid, o := SpawnMemory(kernel.current, child, call, slot >= 0, room);
      MemoryAdded(tasks, child);
      if result == 0 {
        result := Join(kernel.current, child, sigterm);
      }
      Whole();
    }

    // ---------------------------------------------------------------- execve

    method ExecMemory(t: nat, call: Exec.Call) returns (rc: int, ghost mid: World, ghost o: Exec.Outcome)
      requires Holds(OfMemory) && Holds(OfKernel) && Holds(OfBoth) && t in memory.tasks && memory.tasks[t].root != 0
      modifies memory.Repr()
      ensures Holds(OfMemory) && Holds(OfKernel) && t in memory.tasks && SameBut(old(memory.tasks), memory.tasks, t)
      ensures old(memory.tasks)[t].root in old(memory.m.trees)
      ensures rc == 0 ==>
        Ledger.Memory.Replaced(old(memory.m.Now()), mid, memory.m.Now(), memory.m.sh, old(memory.tasks)[t],
                               memory.tasks[t], call, o)
      ensures rc == 0 ==> memory.tasks[t].root != 0
      ensures rc != 0 ==> memory.tasks == old(memory.tasks) && memory.m.owner == old(memory.m.owner)
      ensures rc != 0 ==>
        Exec.CallRefused(old(memory.m.Now()), memory.m.sh, memory.m.pmm.totalFrames, old(memory.tasks)[t].root, call,
                         rc)
      ensures OthersUntouched(t)
    {
      var p;
      rc, p, mid, o := memory.Execve(t, call);
    }

    method ExecTask(sigterm: nat)
      requires Holds(OfMemory) && Holds(OfKernel) && Holds(OfBoth)
      modifies kernel.Repr()
      ensures Holds(OfMemory) && Holds(OfKernel) && Holds(OfBoth)
      ensures NewHandler(old(kernel.Snap()), kernel.Snap(), sigterm) && Passes(old(Sight()), Sight(), 0)
      ensures kernel.current in old(kernel.Records())
      ensures kernel.Records() == old(kernel.Records())[
        kernel.current := old(kernel.Records())[kernel.current].(pending := 0, handler := sigterm)]
    {
      kernel.ReplaceProgram(sigterm);
    }

    // Nothing is pending for the running task any more, and it has another handler; the rest of the records stays.
    static ghost predicate NewHandler(c: KernelState.Cols, d: KernelState.Cols, sigterm: nat) {
      d == c.(pending := c.pending[c.current := 0], handler := c.handler[c.current := sigterm])
    }

    /** execve: the running task goes on with another program, or with the one it has. */
    method Execve(call: Exec.Call, sigterm: nat) returns (rc: int, ghost mid: World, ghost o: Exec.Outcome)
      requires Valid() && kernel.current != kernel.first
      modifies Repr()
      ensures Valid() && Passes(old(Sight()), Sight(), 0)
      ensures kernel.current == old(kernel.current) && OthersUntouched(kernel.current)
      ensures kernel.current in memory.tasks && kernel.current in old(memory.tasks)
      ensures old(memory.tasks)[kernel.current].root in old(memory.m.trees)
      ensures rc == 0 ==> NewHandler(old(kernel.Snap()), kernel.Snap(), sigterm)
      ensures rc == 0 ==>
        && kernel.current in old(kernel.Records())
        && kernel.Records() == old(kernel.Records())[
             kernel.current := old(kernel.Records())[kernel.current].(pending := 0, handler := sigterm)]
      ensures rc == 0 ==>
        Ledger.Memory.Replaced(old(memory.m.Now()), mid, memory.m.Now(), memory.m.sh,
                               old(memory.tasks)[kernel.current], memory.tasks[kernel.current], call, o)
      ensures rc != 0 ==> memory.tasks == old(memory.tasks) && memory.m.owner == old(memory.m.owner)
      ensures rc != 0 ==> kernel.Snap() == old(kernel.Snap())
      ensures rc != 0 ==>
        Exec.CallRefused(old(memory.m.Now()), memory.m.sh, memory.m.pmm.totalFrames,
                         old(memory.tasks)[kernel.current].root, call, rc)
    {
      Parts();
      NothingPasses(Sight());
      CurrentHasMemory();
      ghost var tasks := memory.tasks;
      rc, mid, o := ExecMemory(kernel.current, call);
      MemoryAdded(tasks, kernel.current);
      if rc == 0 {
        ExecTask(sigterm);
      }
      Whole();
    }

    // ---------------------------------------------------------------- ending, waiting and signals

    /** exit: the task has ended; its memory stays until it is reaped. */
    method Exit(status: int) returns (rc: int)
      requires Valid() && kernel.current !in kernel.awaited
      modifies kernel.Repr()
      ensures Valid() && Passes(old(Sight()), Sight(), if rc == -Tasks.EPERM then 0 else 1)
      ensures rc == -Tasks.EPERM <==> old(kernel.current) == kernel.first
      ensures rc == -Tasks.EPERM ==> kernel.Snap() == old(kernel.Snap())
      ensures rc != -Tasks.EPERM ==>
        && kernel.IsEnded(old(kernel.current), status)
        && Tasks.Kernel.EndedThenSwitched(old(kernel.Snap()), kernel.Snap(), kernel.first, old(kernel.current), status)
    {
      Parts();
      rc := kernel.Exit(status);
      Whole();
    }

    /** A turn of the timer. */
    method Tick()
      requires Valid()
      modifies kernel.Repr()
      ensures Valid() && Passes(old(Sight()), Sight(), 1) && SchedStep(old(Sight()), Sight())
    {
      Parts();
      ghost var v := Sight();
      kernel.Sched();
      SchedPasses(v, Sight());
      Whole();
    }

    /** A signal ends a task or is noted in it; its memory stays. */
    method SignalSend(sig: int, target: int) returns (rc: int, ghost t: nat)
      requires Valid()
      modifies kernel.Repr()
      ensures Valid()
      ensures Passes(old(Sight()), Sight(),
                     if rc == 0 && t == old(kernel.current) && Tasks.Kernel.Kills(old(kernel.Snap()), t, sig)
                     then 1 else 0)
      ensures rc != 0 ==> kernel.Snap() == old(kernel.Snap())
      ensures rc == 0 ==> t in old(kernel.pid) && old(kernel.pid)[t] == target
      ensures rc == 0 ==> Tasks.Kernel.Signalled(old(kernel.Snap()), kernel.Snap(), kernel.first, t, sig)
    {
      Parts();
      ghost var c := kernel.Snap();
      rc, t := kernel.SignalSend(sig, target);
      Whole();
    }

    // The return address that the handler is given: the trampoline's, stored on the user stack.
    function ReturnAddress(): seq<PageEntry.byte> {
      Words.WordBytes(USER_SIGTRAMP_VIRT, 8)
    }

    // The running task may write the bytes from va on.
    ghost predicate Writable(va: nat, len: nat)
      reads memory, memory.m, kernel
    {
      && kernel.current in memory.tasks && memory.tasks[kernel.current].root in memory.m.trees
      && UserCopy.RangeValid(va, len)
      && UserCopy.AllOpen(memory.m.mem, memory.m.trees[memory.tasks[kernel.current].root], va, len, true)
    }

    // The return address can be stored at sp.
    ghost predicate CanPush(sp: int)
      reads memory, memory.m, kernel
    {
      sp >= 0 && Writable(sp, 8)
    }

    method StoreBytes(va: nat, src: seq<PageEntry.byte>) returns (rc: int)
      requires Holds(OfMemory) && Holds(OfKernel) && Holds(OfBoth) && kernel.current != kernel.first
      modifies memory.Repr()
      ensures Holds(OfMemory) && Holds(OfKernel) && Holds(OfBoth) && OthersUntouched(kernel.current)
      ensures memory.tasks == old(memory.tasks) && rc == if old(Writable(va, |src|)) then |src| else -1
      ensures rc == |src| ==> Stored(old(memory.m.Now()), memory.m.Now(), memory.tasks, kernel.current, va, src)
    {
      CurrentHasMemory();
      var stored;
      ghost var done;
      stored, done := memory.Store(kernel.current, va, src);
      assert src[..|src|] == src;
      rc := if stored == 0 then |src| else -1;
    }

    // What was stored is read.
    static lemma StoredReads(w: World, w': World, tasks: map<nat, TaskMem>, t: nat, va: nat, x: nat)
      requires Stored(w, w', tasks, t, va, Words.WordBytes(x, 8))
      requires var nodes := w.trees[tasks[t].root];
        UserCopy.AllOpen(w.mem, nodes, va, 8, false) ==>
          UserCopy.ReadWord(UserCopy.WriteBytes(w.mem, nodes, va, Words.WordBytes(x, 8)), nodes, va, 8) == x
      ensures UserCopy.ReadWord(w'.mem, w'.trees[tasks[t].root], va, 8) == x
    {
      var src := Words.WordBytes(x, 8);
      assert src[..|src|] == src;
      forall y: nat | va <= y < va + 8 ensures UserCopy.Open(w.mem, w.trees[tasks[t].root], y, false) {
        assert UserCopy.Open(w.mem, w.trees[tasks[t].root], y, true);
      }
    }

    method PushReturnAddress(sp: int) returns (copied: bool)
      requires Holds(OfMemory) && Holds(OfKernel) && Holds(OfBoth) && kernel.current != kernel.first
      modifies memory.Repr()
      ensures Holds(OfMemory) && Holds(OfKernel) && Holds(OfBoth)
      ensures OthersUntouched(kernel.current) && memory.tasks == old(memory.tasks)
      ensures copied <==> old(CanPush(sp))
      ensures copied ==>
        Stored(old(memory.m.Now()), memory.m.Now(), memory.tasks, kernel.current, sp, ReturnAddress())
      ensures copied ==> FindsTrampoline(memory.m.Now(), memory.tasks, kernel.current, sp)
    {
      CurrentHasMemory();
      if sp < 0 {
        Untouched(kernel.current);
        return false;
      }
      memory.StoredWordIsRead(kernel.current, sp, USER_SIGTRAMP_VIRT);
      ghost var w := memory.m.Now();
      var rc := StoreBytes(sp, ReturnAddress());
      copied := rc != -1;
      if copied {
        StoredReads(w, memory.m.Now(), memory.tasks, kernel.current, sp, USER_SIGTRAMP_VIRT);
      }
    }

    // Task t reads the address of the signal trampoline at sp.
    static ghost predicate FindsTrampoline(w: World, tasks: map<nat, TaskMem>, t: nat, sp: int) {
      && sp >= 0 && t in tasks && tasks[t].root in w.trees
      && UserCopy.ReadWord(w.mem, w.trees[tasks[t].root], sp, 8) == 0x7FFE_0000_0000
    }

    // The bytes are in the memory of t, at writable addresses, and nothing else has changed.
    static ghost predicate Stored(w: World, w': World, tasks: map<nat, TaskMem>, t: nat, va: nat,
                                  src: seq<PageEntry.byte>)
    {
      && t in tasks && tasks[t].root in w.trees && tasks[t].root in w'.trees
      && UserCopy.WrittenUpTo(w, w', tasks[t].root, va, src, |src|)
    }

    /** On the way back to user mode: the task enters its handler, with the trampoline as return address on its
        stack, or it ends. */
    method SignalCheckUser(userRip: nat, userRsp: nat) returns (rip: nat, rsp: int, ghost copied: bool)
      requires Valid() && kernel.current != kernel.first && kernel.current !in kernel.awaited
      modifies Repr()
      ensures Valid() && OthersUntouched(old(kernel.current)) && memory.tasks == old(memory.tasks)
      ensures Tasks.Kernel.Delivered(old(kernel.Snap()), kernel.Snap(), kernel.first, copied)
      ensures old(kernel.current) in old(kernel.pending) && old(kernel.current) in old(kernel.handler)
      ensures Passes(old(Sight()), Sight(), if old(kernel.pending)[old(kernel.current)] == 0
                          || Tasks.Kernel.Handled(old(kernel.Snap()), copied) then 0 else 1)
      ensures copied <==> WantsHandler(old(kernel.Snap())) && old(CanPush(Tasks.Kernel.HandlerStack(userRsp)))
      ensures copied ==>
        && rip == old(kernel.handler)[old(kernel.current)] && rsp == Tasks.Kernel.HandlerStack(userRsp) && rsp >= 0
        && Stored(old(memory.m.Now()), memory.m.Now(), memory.tasks, old(kernel.current), rsp, ReturnAddress())
        && FindsTrampoline(memory.m.Now(), memory.tasks, old(kernel.current), rsp)
      ensures !copied ==> rip == userRip && rsp == userRsp
    {
      Parts();
      CurrentHasMemory();
      Untouched(kernel.current);
      ghost var c := kernel.Snap();
      var pushed := false;
      if kernel.pending[kernel.current] == Tasks.SIGTERM && kernel.handler[kernel.current] != 0 {
        pushed := PushReturnAddress(Tasks.Kernel.HandlerStack(userRsp));
      }
      copied := pushed;
      rip, rsp := DeliverSignal(userRip, userRsp, pushed);
      Whole();
    }

    // A handler is to be entered.
    static ghost predicate WantsHandler(c: KernelState.Cols) {
      Tasks.Kernel.Handled(c, true)
    }

    method DeliverSignal(userRip: nat, userRsp: nat, copied: bool) returns (rip: nat, rsp: int)
      requires Holds(OfMemory) && Holds(OfKernel) && Holds(OfBoth)
      requires kernel.current != kernel.first && kernel.current !in kernel.awaited
      modifies kernel.Repr()
      ensures Holds(OfMemory) && Holds(OfKernel) && Holds(OfBoth)
      ensures Tasks.Kernel.Delivered(old(kernel.Snap()), kernel.Snap(), kernel.first, copied)
      ensures old(kernel.current) in old(kernel.pending) && old(kernel.current) in old(kernel.handler)
      ensures Passes(old(Sight()), Sight(), if old(kernel.pending)[old(kernel.current)] == 0
                                               || Tasks.Kernel.Handled(old(kernel.Snap()), copied) then 0 else 1)
      ensures Tasks.Kernel.Handled(old(kernel.Snap()), copied) ==>
        rip == old(kernel.handler)[old(kernel.current)] && rsp == Tasks.Kernel.HandlerStack(userRsp)
      ensures !Tasks.Kernel.Handled(old(kernel.Snap()), copied) ==> rip == userRip && rsp == userRsp
    {
      rip, rsp := kernel.SignalCheckUser(userRip, userRsp, copied);
    }

    // The memory of a task that was taken out of the kernel's books is given back: once, as it is there only once.
    method ReleaseMemory(child: nat)
      requires Holds(OfMemory) && Holds(OfKernel) && memory.Repr() !! kernel.Repr() && child in memory.tasks
      requires child !in kernel.next && MatchingBut(child)
      modifies memory.Repr()
      ensures Holds(OfMemory) && Holds(OfKernel) && Holds(OfBoth)
      ensures child !in memory.tasks && child in old(memory.tasks)
      ensures Ledger.Memory.TaskGone(old(memory.m.Now()), memory.m.Now(), old(memory.tasks)[child], child)
      ensures OthersUntouched(child)
    {
      memory.Release(child);
    }

    // A child was reaped, or none.
    method ReleaseReaped(r: Tasks.WaitResult)
      requires Holds(OfMemory) && Holds(OfKernel) && memory.Repr() !! kernel.Repr()
      requires Released(r)
      modifies memory.Repr()
      ensures Valid()
      ensures r.Exited? ==> r.child in old(memory.tasks) && r.child !in memory.tasks && OthersUntouched(r.child)
      ensures r.Exited? ==>
        Ledger.Memory.TaskGone(old(memory.m.Now()), memory.m.Now(), old(memory.tasks)[r.child], r.child)
      ensures !r.Exited? ==> memory.tasks == old(memory.tasks) && memory.m.Now() == old(memory.m.Now())
    {
      if r.Exited? {
        ReleaseMemory(r.child);
      }
      Whole();
    }

    /** waitpid, up to its first call of sched. */
    method Waitpid(p: int) returns (r: Tasks.WaitResult)
      requires Valid() && kernel.current != kernel.first && kernel.current !in kernel.awaited
      modifies Repr()
      ensures Valid() && Passes(old(Sight()), Sight(), if r.Waiting? then 1 else 0)
      ensures r == Tasks.NoChild <==> forall t :: !Tasks.Kernel.IsChild(old(kernel.Snap()), p, t)
      ensures r == Tasks.NoChild ==> kernel.Snap() == old(kernel.Snap())
      ensures forall t :: Tasks.Kernel.IsChild(old(kernel.Snap()), p, t) ==>
                Tasks.Kernel.WaitMeans(old(kernel.Snap()), kernel.Snap(), t, r)
      ensures r.Exited? ==> r.child in old(memory.tasks) && r.child !in memory.tasks && OthersUntouched(r.child)
      ensures r.Exited? ==> r.child in old(kernel.exitCode) && r.code == old(kernel.exitCode)[r.child]
      ensures r.Exited? ==>
        Ledger.Memory.TaskGone(old(memory.m.Now()), memory.m.Now(), old(memory.tasks)[r.child], r.child)
      ensures !r.Exited? ==> memory.tasks == old(memory.tasks) && memory.m.Now() == old(memory.m.Now())
    {
      Parts();
      r := WaitFor(p);
      ReleaseReaped(r);
    }

    // A child was taken out of the kernel's books, but its memory is still there; or nothing is out of step.
    ghost predicate Released(r: Tasks.WaitResult)
      reads memory, kernel
    {
      if r.Exited? then r.child in memory.tasks && r.child !in kernel.next && MatchingBut(r.child) else Matching()
    }

    method WaitFor(p: int) returns (r: Tasks.WaitResult)
      requires Holds(OfMemory) && Holds(OfKernel) && Holds(OfBoth)
      requires kernel.current != kernel.first && kernel.current !in kernel.awaited
      modifies kernel.Repr()
      ensures Holds(OfMemory) && Holds(OfKernel) && memory.Repr() !! kernel.Repr() && Released(r)
      ensures Passes(old(Sight()), Sight(), if r.Waiting? then 1 else 0)
      ensures r == Tasks.NoChild <==> forall t :: !Tasks.Kernel.IsChild(old(kernel.Snap()), p, t)
      ensures r == Tasks.NoChild ==> kernel.Snap() == old(kernel.Snap())
      ensures forall t :: Tasks.Kernel.IsChild(old(kernel.Snap()), p, t) ==>
                Tasks.Kernel.WaitMeans(old(kernel.Snap()), kernel.Snap(), t, r)
      ensures r.Exited? ==> r.child in old(kernel.exitCode) && r.code == old(kernel.exitCode)[r.child]
    {
      kernel.FirstIsKnown();
      r := kernel.Waitpid(p);
      kernel.FirstIsKnown();
    }

    /** waitpid, from where sched returned. */
    method WaitResume(child: nat) returns (r: Tasks.WaitResult)
      requires Valid() && kernel.current in kernel.awaited && kernel.awaited[kernel.current] == child
      modifies Repr()
      ensures Valid() && Passes(old(Sight()), Sight(), if r.Waiting? then 1 else 0)
      ensures Tasks.Kernel.WaitMeans(old(kernel.Snap()), kernel.Snap(), child, r)
      ensures r.Exited? ==> child in old(memory.tasks) && child !in memory.tasks && OthersUntouched(child)
      ensures r.Exited? ==>
        Ledger.Memory.TaskGone(old(memory.m.Now()), memory.m.Now(), old(memory.tasks)[child], child)
      ensures !r.Exited? ==> memory.tasks == old(memory.tasks) && memory.m.Now() == old(memory.m.Now())
    {
      Parts();
      kernel.FirstIsKnown();
      r := kernel.WaitResume(child);
      kernel.FirstIsKnown();
      ReleaseReaped(r);
    }

    // ---------------------------------------------------------------- orphans

    // The memory of every task that is left is what it was.
    static ghost predicate KeptTasks(w: World, w': World, tasks: map<nat, TaskMem>, tasks': map<nat, TaskMem>) {
      forall u {:trigger TaskKept(w, w', tasks'[u], u)} :: u in tasks' ==>
        u in tasks && tasks'[u] == tasks[u] && TaskKept(w, w', tasks'[u], u)
    }

    static lemma KeptFewer(w0: World, w1: World, w2: World, tasks0: map<nat, TaskMem>, tasks1: map<nat, TaskMem>,
                           tasks2: map<nat, TaskMem>, t: nat)
      requires KeptTasks(w0, w1, tasks0, tasks1) && OthersKept(w1, w2, tasks1, tasks2, t) && t !in tasks2
      ensures KeptTasks(w0, w2, tasks0, tasks2)
    {
      forall u | u in tasks2 ensures u in tasks0 && tasks2[u] == tasks0[u] && TaskKept(w0, w2, tasks2[u], u) {
        assert TaskKept(w0, w1, tasks1[u], u) && TaskKept(w1, w2, tasks1[u], u);
      }
    }

    lemma AllKept()
      requires Holds(OfMemory)
      ensures KeptTasks(memory.m.Now(), memory.m.Now(), memory.tasks, memory.tasks)
    {
      KeptBalanced(memory.m.Now(), memory.m.Now(), memory.m.sh, memory.m.pmm.totalFrames, memory.tasks, memory.holders);
    }

    /** The kernel task's idle loop reaps the zombies whose parent it is, with their memory, and touches nobody else. */
    method ReapOrphans()
      requires Valid()
      modifies Repr()
      ensures Valid() && Passes(old(Sight()), Sight(), 0)
      ensures Tasks.Kernel.OnlyOrphansGone(old(kernel.Snap()), kernel.Snap(), kernel.first)
      ensures forall t :: !kernel.IsOrphan(t)
      ensures KeptTasks(old(memory.m.Now()), memory.m.Now(), old(memory.tasks), memory.tasks)
    {
      Parts();
      ghost var c, w, tasks := kernel.Snap(), memory.m.Now(), memory.tasks;
      kernel.SlotsKnown();
      kernel.NothingGone();
      AllKept();
      NothingPasses(Sight());
      for i := 1 to MAX_TASKS
        invariant Holds(OfMemory) && Holds(OfKernel) && Holds(OfBoth) && SoFar(c, w, tasks, i)
      {
        ReapNext(i, c, w, tasks);
      }
      kernel.NoOrphanLeft();
      Whole();
    }

    // The orphans in slots 1 to i - 1 have gone, and nobody else.
    ghost predicate SoFar(c: KernelState.Cols, w: World, tasks: map<nat, TaskMem>, i: nat)
      reads memory, memory.m, kernel
    {
      && KeptTasks(w, memory.m.Now(), tasks, memory.tasks)
      && Tasks.Kernel.OnlyOrphansGone(c, kernel.Snap(), kernel.first)
      && Passes(KernelState.Seen(c), Sight(), 0)
      && |kernel.slots| == MAX_TASKS && kernel.slots[0] == kernel.first && kernel.NoOrphanBefore(i)
    }

    method ReapNext(i: nat, ghost c: KernelState.Cols, ghost w: World, ghost tasks: map<nat, TaskMem>)
      requires Holds(OfMemory) && Holds(OfKernel) && Holds(OfBoth) && 0 < i < MAX_TASKS && SoFar(c, w, tasks, i)
      modifies memory.Repr(), kernel.Repr()
      ensures Holds(OfMemory) && Holds(OfKernel) && Holds(OfBoth) && SoFar(c, w, tasks, i + 1)
    {
      ghost var w1, tasks1 := memory.m.Now(), memory.tasks;
      var t := kernel.ReapTurn(i, c);
      if t != 0 {
        ReleaseMemory(t);
        KeptFewer(w, w1, memory.m.Now(), tasks, tasks1, memory.tasks, t);
      }
    }

    // ---------------------------------------------------------------- open files

    /** open: the path is read from user memory and must be absolute; `inodes` are those that paths lead to. */
    method Open(pathVa: nat, inodes: map<seq<PageEntry.byte>, nat>, file: nat)
      returns (fd: int, path: seq<PageEntry.byte>)
      requires Valid() && kernel.current != kernel.first && (file != 0 ==> file !in kernel.files.files)
      modifies kernel.files
      ensures Valid() && IsUserPath(pathVa, path)
      ensures path == [] ==>
        fd == -1 && kernel.files.tables == old(kernel.files.tables) && kernel.files.files == old(kernel.files.files)
      ensures path != [] ==>
        OpenFiles.Opened(old(kernel.files.tables), old(kernel.files.files), kernel.files.tables, kernel.files.files,
                         kernel.current, if path in inodes then inodes[path] else 0, file, fd)
    {
      Parts();
      path := UserPath(pathVa);
      if path == [] {
        return -1, path;
      }
      fd := OpenInode(if path in inodes then inodes[path] else 0, file);
    }

    // The path that user memory holds, [] when there is none.
    ghost predicate IsUserPath(pathVa: nat, path: seq<PageEntry.byte>)
      reads memory, memory.m, kernel
    {
      && kernel.current in memory.tasks && memory.tasks[kernel.current].root in memory.m.trees
      && var nodes := memory.m.trees[memory.tasks[kernel.current].root];
         if path == [] then forall p :: !Exec.PathIs(memory.m.mem, nodes, pathVa, p)
         else Exec.PathIs(memory.m.mem, nodes, pathVa, path)
    }

    method UserPath(pathVa: nat) returns (path: seq<PageEntry.byte>)
      requires Holds(OfMemory) && Holds(OfKernel) && Holds(OfBoth) && kernel.current != kernel.first
      ensures IsUserPath(pathVa, path)
    {
      CurrentHasMemory();
      memory.HasTree(kernel.current);
      var rc;
      rc, path := Exec.CopyPath(memory.m, memory.tasks[kernel.current].root, pathVa);
      if rc != 0 {
        path := [];
      }
    }

    method OpenInode(inode: nat, file: nat) returns (fd: int)
      requires Holds(OfMemory) && Holds(OfKernel) && Holds(OfBoth) && (file != 0 ==> file !in kernel.files.files)
      modifies kernel.files
      ensures Valid()
      ensures OpenFiles.Opened(old(kernel.files.tables), old(kernel.files.files), kernel.files.tables,
                               kernel.files.files, kernel.current, inode, file, fd)
    {
      fd := kernel.Open(inode, file);
      Whole();
    }

    /** close. */
    method Close(fd: int) returns (rc: int)
      requires Valid()
      modifies kernel.files
      ensures Valid()
      ensures OpenFiles.Closed(old(kernel.files.tables), old(kernel.files.files), kernel.files.tables,
                               kernel.files.files, kernel.current, fd, rc)
    {
      Parts();
      rc := kernel.Close(fd);
      Whole();
    }

    /** read: `got` is what the file system finds at the file's offset.  The offset moves even if the bytes cannot be
        stored. */
    method Read(fd: int, size: nat, va: nat, room: bool, got: seq<PageEntry.byte>, fails: bool)
      returns (rc: int, ghost n: int)
      requires Valid() && kernel.current != kernel.first
      requires |got| <= size && |got| <= SYSCALL_MAX_IO
      modifies memory.Repr(), kernel.files
      ensures Valid() && OthersUntouched(kernel.current) && memory.tasks == old(memory.tasks)
      ensures size == 0 ==> rc == 0
      ensures size > 0 && !room ==> rc == -1
      ensures size == 0 || !room ==>
        kernel.files.files == old(kernel.files.files) && memory.m.Now() == old(memory.m.Now())
      ensures size > 0 && room ==>
        && OpenFiles.Advanced(kernel.files.tables, old(kernel.files.files), kernel.files.files, kernel.current, fd,
                              if fails then -1 else |got|, n)
        && rc == if n > 0 && !old(Writable(va, |got|)) then -1 else n
      ensures size > 0 && room && rc > 0 ==>
        Stored(old(memory.m.Now()), memory.m.Now(), memory.tasks, kernel.current, va, got)
    {
      Parts();
      CurrentHasMemory();
      Untouched(kernel.current);
      rc, n := 0, 0;
      if size == 0 {
        return;
      }
      if !room {
        return -1, n;
      }
      rc := kernel.Read(fd, if fails then -1 else |got|);
      n := rc;
      if rc > 0 {
        rc := StoreBytes(va, got);
      }
      Whole();
    }

    /** write: the bytes are read from user memory first; `written` is how many of them the file system takes. */
    method Write(fd: int, size: nat, va: nat, room: bool, written: nat, fails: bool)
      returns (rc: int, data: seq<PageEntry.byte>)
      requires Valid() && kernel.current != kernel.first
      modifies kernel.files
      ensures Valid() && kernel.current in memory.tasks && memory.tasks[kernel.current].root in memory.m.trees
      ensures size == 0 ==> rc == 0
      ensures rc > 0 ==>
        data == UserCopy.ReadBytes(memory.m.mem, memory.m.trees[memory.tasks[kernel.current].root], va, |data|)
        && |data| == if size > 0x10_0000 then 0x10_0000 else size
      ensures size > 0 && room && Readable(va, Clamped(size)) ==>
        OpenFiles.Advanced(kernel.files.tables, old(kernel.files.files), kernel.files.files, kernel.current, fd,
                           if fails then -1 else written, rc)
      ensures size > 0 && !(room && Readable(va, Clamped(size))) ==>
        rc == -1 && kernel.files.files == old(kernel.files.files)
    {
      Parts();
      CurrentHasMemory();
      memory.HasTree(kernel.current);
      data := [];
      if size == 0 {
        return 0, data;
      }
      if !room {
        return -1, data;
      }
      rc, data := UserCopy.CopyFromUser(memory.m, memory.tasks[kernel.current].root, va, Clamped(size));
      if rc == 0 {
        rc := WriteFile(fd, if fails then -1 else written);
      }
      Whole();
    }

    method WriteFile(fd: int, n: int) returns (rc: int)
      requires Holds(OfMemory) && Holds(OfKernel) && Holds(OfBoth)
      modifies kernel.files
      ensures Holds(OfMemory) && Holds(OfKernel) && Holds(OfBoth)
      ensures OpenFiles.Advanced(kernel.files.tables, old(kernel.files.files), kernel.files.files, kernel.current, fd,
                                 n,
                                 rc)
    {
      rc := kernel.Write(fd, n);
    }

    static function Clamped(size: nat): nat {
      if size > SYSCALL_MAX_IO then SYSCALL_MAX_IO else size
    }

    ghost predicate Readable(va: nat, len: nat)
      reads memory, memory.m, kernel
    {
      && kernel.current in memory.tasks && memory.tasks[kernel.current].root in memory.m.trees
      && UserCopy.RangeValid(va, len)
      && UserCopy.AllOpen(memory.m.mem, memory.m.trees[memory.tasks[kernel.current].root], va, len, false)
    }

    // ---------------------------------------------------------------- the running task's memory

    /** sbrk for the running task. */
    method Brk(increment: int) returns (ret: int)
      requires Valid() && kernel.current != kernel.first
      modifies memory.Repr()
      ensures Valid() && OthersUntouched(kernel.current)
      ensures kernel.current in memory.tasks && kernel.current in old(memory.tasks)
      ensures memory.tasks == old(memory.tasks)[
        kernel.current := old(memory.tasks)[kernel.current].(mm := memory.tasks[kernel.current].mm)]
      ensures Sbrk.HeapStep(old(memory.m.Now()), memory.m.Now(), memory.m.sh, memory.m.pmm.totalFrames,
                            memory.tasks[kernel.current].root, old(memory.tasks)[kernel.current].mm, increment, ret,
                            memory.tasks[kernel.current].mm)
      ensures memory.tasks[kernel.current].root in old(memory.m.trees)
      ensures memory.tasks[kernel.current].root in memory.m.trees
      ensures Sbrk.Answered(old(memory.m.Now()), memory.m.Now(), memory.m.pmm.totalFrames,
                            old(memory.tasks)[kernel.current].mm, increment, ret, memory.tasks[kernel.current].mm)
      ensures ret == -1 && HasRoom(old(memory.tasks)[kernel.current].mm) ==>
        Sbrk.SameLeaves(old(memory.m.Now()), memory.m.Now(), memory.tasks[kernel.current].root)
    {
      Parts();
      CurrentHasMemory();
      ret := memory.Brk(kernel.current, increment);
      Whole();
    }

    /** What the running task stores, or the kernel stores for it, changes its own memory only. */
    method Store(va: nat, src: seq<PageEntry.byte>) returns (rc: int)
      requires Valid() && kernel.current != kernel.first
      modifies memory.Repr()
      ensures Valid() && OthersUntouched(kernel.current) && memory.tasks == old(memory.tasks)
      ensures rc == if old(Writable(va, |src|)) then |src| else -1
      ensures rc == |src| ==> Stored(old(memory.m.Now()), memory.m.Now(), memory.tasks, kernel.current, va, src)
    {
      Parts();
      rc := StoreBytes(va, src);
      Whole();
    }

    /** A page fault of the running task: its stack gets a page, or the task ends. */
    method Fault(addr: nat, present: bool) returns (code: nat)
      requires Valid() && kernel.current != kernel.first && kernel.current !in kernel.awaited
      requires kernel.current in memory.tasks
      requires present <==> Translate(memory.m.mem, memory.tasks[kernel.current].root, addr).Some?
      modifies Repr()
      ensures Valid() && Passes(old(Sight()), Sight(), if code == 0 then 0 else 1)
      ensures OthersUntouched(old(kernel.current)) && memory.tasks == old(memory.tasks)
      ensures PageFault.Answers(old(memory.m.Now()), memory.m.pmm.totalFrames,
                                old(memory.tasks)[old(kernel.current)].mm, addr, present, code)
      ensures code == 0 ==>
        && kernel.Snap() == old(kernel.Snap())
        && StackGrew(old(memory.m.Now()), memory.m.Now(), memory.m.sh, memory.tasks, kernel.current, addr / 4096)
      ensures code != 0 ==>
        && kernel.IsEnded(old(kernel.current), 139)
        && Tasks.Kernel.EndedThenSwitched(old(kernel.Snap()), kernel.Snap(), kernel.first, old(kernel.current), 139)
    {
      Parts();
      CurrentHasMemory();
      NothingPasses(Sight());
      code := FaultMemory(kernel.current, addr, present);
      if code != 0 {
        EndFaulting();
      }
      Whole();
    }

    static ghost predicate StackGrew(w: World, w': World, sh: Sharing, tasks: map<nat, TaskMem>, t: nat, v: nat) {
      && t in tasks && tasks[t].root in w.trees && tasks[t].root in w'.trees
      && PageFault.StackPageAdded(w, w', sh, tasks[t].root, v)
    }

    method FaultMemory(t: nat, addr: nat, present: bool) returns (code: nat)
      requires Holds(OfMemory) && Holds(OfKernel) && Holds(OfBoth) && t in memory.tasks
      requires present <==> Translate(memory.m.mem, memory.tasks[t].root, addr).Some?
      modifies memory.Repr()
      ensures Holds(OfMemory) && Holds(OfKernel) && Holds(OfBoth) && OthersUntouched(t)
      ensures memory.tasks == old(memory.tasks)
      ensures PageFault.Answers(old(memory.m.Now()), memory.m.pmm.totalFrames, memory.tasks[t].mm, addr, present, code)
      ensures code == 0 ==>
        StackGrew(old(memory.m.Now()), memory.m.Now(), memory.m.sh, memory.tasks, t, addr / 4096)
    {
      code := memory.Fault(t, addr, present);
    }

    method EndFaulting()
      requires Holds(OfMemory) && Holds(OfKernel) && Holds(OfBoth) && kernel.current != kernel.first
      modifies kernel.Repr()
      ensures Holds(OfMemory) && Holds(OfKernel) && Holds(OfBoth) && Passes(old(Sight()), Sight(), 1)
      ensures kernel.IsEnded(old(kernel.current), 139)
      ensures Tasks.Kernel.EndedThenSwitched(old(kernel.Snap()), kernel.Snap(), kernel.first, old(kernel.current), 139)
    {
      kernel.EndCurrent(139);
    }

    // ---------------------------------------------------------------- whole runs

    /** Takes a step, if it can be taken: only the kernel's own work needs no user task, and a task that went to sleep
        in waitpid goes on there before anything else. */
    method Perform(step: Step) returns (ghost calls: nat)
      requires Valid()
      modifies Repr()
      ensures Valid() && Passes(old(Sight()), Sight(), calls)
    {
      Parts();
      NothingPasses(Sight());
      calls := 0;
      if kernel.current in kernel.awaited {
        var r := WaitResume(kernel.awaited[kernel.current]);
        calls := if r.Waiting? then 1 else 0;
      } else if kernel.current == kernel.first || step.Create? || step.Idle? || step.Tick? || step.Signal? {
        calls := KernelStep(step);
      } else if step.Fork? || step.Spawn? || step.Execve? || step.Exit? || step.Waitpid? || step.ReturnToUser? {
        calls := TaskStep(step);
      } else if step.Brk? || step.Store? || step.Fault? {
        calls := MemoryStep(step);
      } else {
        FileStep(step);
      }
    }

    method KernelStep(step: Step) returns (ghost calls: nat)
      requires Valid() && kernel.current !in kernel.awaited
      modifies Repr()
      ensures Valid() && Passes(old(Sight()), Sight(), calls)
    {
      Parts();
      NothingPasses(Sight());
      calls := 0;
      match step
      case Create(child, parentPid, init, sigterm, room) =>
        var may := MayBeParent(parentPid);
        if may && child !in kernel.next && child != 0 {
          var result;
          ghost var rc, p, mid, top;
          result, rc, p, mid, top := TaskCreate(child, parentPid, init, sigterm, room);
        }
      case Idle =>
        ReapOrphans();
      case Tick =>
        Tick();
        calls := 1;
      case Signal(sig, target) =>
        ghost var c := kernel.Snap();
        var rc;
        ghost var t;
        rc, t := SignalSend(sig, target);
        calls := if rc == 0 && t == c.current && Tasks.Kernel.Kills(c, t, sig) then 1 else 0;
      case _ =>
    }

    // The task with this pid, if there is one, has not ended.
    method MayBeParent(pid: int) returns (may: bool)
      requires Valid()
      ensures may ==> forall t :: t in kernel.pid && kernel.pid[t] == pid && t in kernel.state ==>
                        kernel.state[t] != Zombie
    {
      Parts();
      var t := kernel.FindByPid(pid);
      if t == 0 {
        kernel.AllHavePids();
        return true;
      }
      kernel.OnlyOne(t, pid);
      kernel.AllHavePids();
      may := kernel.state[t] != Zombie;
    }

    method TaskStep(step: Step) returns (ghost calls: nat)
      requires Valid() && kernel.current != kernel.first && kernel.current !in kernel.awaited
      modifies Repr()
      ensures Valid() && Passes(old(Sight()), Sight(), calls)
    {
      Parts();
      NothingPasses(Sight());
      calls := 0;
      match step
      case Fork(child, room) =>
        if child !in kernel.next && child != 0 {
          var result := Fork(child, room);
        }
      case Spawn(child, call, sigterm, room) =>
        if child !in kernel.next && child != 0 {
          var result;
          ghost var mid, o;
          result, mid, o := Spawn(child, call, sigterm, room);
        }
      case Execve(call, sigterm) =>
        var rc;
        ghost var mid, o;
        rc, mid, o := Execve(call, sigterm);
      case Exit(status) =>
        var rc := Exit(status);
        calls := 1;
      case Waitpid(pid) =>
        var r := Waitpid(pid);
        calls := if r.Waiting? then 1 else 0;
      case ReturnToUser(userRip, userRsp) =>
        ghost var c := kernel.Snap();
        var rip, rsp;
        ghost var copied;
        rip, rsp, copied := SignalCheckUser(userRip, userRsp);
        calls := if c.pending[c.current] == 0 || Tasks.Kernel.Handled(c, copied) then 0 else 1;
      case _ =>
    }

    // The records of tasks are not touched, unless it goes wrong.
    method MemoryStep(step: Step) returns (ghost calls: nat)
      requires Valid() && kernel.current != kernel.first && kernel.current !in kernel.awaited
      modifies Repr()
      ensures Valid() && Passes(old(Sight()), Sight(), calls)
    {
      Parts();
      NothingPasses(Sight());
      calls := 0;
      match step
      case Brk(increment) =>
        var ret := Brk(increment);
      case Store(va, src) =>
        var rc := Store(va, src);
      case Fault(addr) =>
        CurrentHasMemory();
        var code := Fault(addr, Translate(memory.m.mem, memory.tasks[kernel.current].root, addr).Some?);
        calls := if code == 0 then 0 else 1;
      case _ =>
    }

    method FileStep(step: Step)
      requires Valid() && kernel.current != kernel.first
      modifies memory.Repr(), kernel.files
      ensures Valid() && Passes(old(Sight()), Sight(), 0)
    {
      Parts();
      NothingPasses(Sight());
      match step
      case Open(pathVa, inodes, file) =>
        if file == 0 || file !in kernel.files.files {
          var fd, path := Open(pathVa, inodes, file);
        }
      case Close(fd) =>
        var rc := Close(fd);
      case Read(fd, size, va, room, got, fails) =>
        if |got| <= size && |got| <= SYSCALL_MAX_IO {
          var rc;
          ghost var n;
          rc, n := Read(fd, size, va, room, got, fails);
        }
      case Write(fd, size, va, room, written, fails) =>
        var rc, data := Write(fd, size, va, room, written, fails);
      case _ =>
    }

    /** A run of any steps.  Every state on the way is valid, and nobody waits for ever: a task that from some point on
        is ready after every step, and is not chosen, sees fewer than 2 * MAX_TASKS calls of sched. */
    method Run(steps: seq<Step>) returns (ghost seen: seq<View>)
      requires Valid()
      modifies Repr()
      ensures Valid() && History(seen) && |seen| == |steps| + 1
      ensures seen[0] == old(Sight()) && seen[|steps|] == Sight()
      ensures forall t, from: nat {:trigger Waits(seen[from..], t)} ::
                from <= |steps| && Waits(seen[from..], t) ==> Sight().turns - seen[from].turns < 2 * MAX_TASKS
    {
      seen := [Sight()];
      for i := 0 to |steps|
        invariant Valid() && |seen| == i + 1 && History(seen)
        invariant seen[0] == old(Sight()) && seen[i] == Sight()
      {
        ghost var calls := Perform(steps[i]);
        HistoryOn(seen, Sight(), calls);
        seen := seen + [Sight()];
      }
      forall t, from: nat | from <= |steps| && Waits(seen[from..], t)
        ensures Sight().turns - seen[from].turns < 2 * MAX_TASKS
      {
        HistorySuffix(seen, from);
        BoundedWaiting(seen[from..], t);
      }
    }
  }
}
