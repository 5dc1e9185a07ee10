/** The memory of all tasks over whole runs: fork, spawn, execve, reaping, sbrk and stack faults. */
module Ledger {
  import opened PageEntry
  import opened PageTree
  import opened World
  import opened Vmm
  import opened Growth
  import opened Layout
  import opened Image
  import opened Books
  import opened UserStack
  import Pmm
  import Elf
  import NewProgram
  import Clone
  import Teardown
  import Sbrk
  import PageFault
  import Exec
  import UserCopy
  import Words

  const EAGAIN: int := 11

  // ---------------------------------------------------------------- the effect of single steps on the books

  lemma StackFramesOk(w: World, w': World, sh: Sharing, tasks: map<nat, TaskMem>, holders: Holders, t: nat, first: nat)
    requires Balanced(w, sh, tasks, holders) && t !in tasks
    requires w' == w.(owner := WithStack(w.owner, first, KERNEL_STACK_FRAMES, t))
    ensures forall f :: f in w'.owner ==> FrameOk(w', tasks[t := TaskMem(0, EMPTY_MM, first)], f)
  {
    forall f | f in w'.owner ensures FrameOk(w', tasks[t := TaskMem(0, EMPTY_MM, first)], f) {
      if f in w.owner {
        assert FrameOk(w, tasks, f);
      } else {
        assert InRun(f, first, KERNEL_STACK_FRAMES);
      }
    }
  }

  lemma StackBalanced(w: World, w': World, sh: Sharing, total: nat, tasks: map<nat, TaskMem>, holders: Holders, t: nat,
                      first: nat)
    requires WorldOk(w, sh, total) && Balanced(w, sh, tasks, holders) && t !in tasks
    requires forall f :: first <= f < first + KERNEL_STACK_FRAMES ==> f !in w.owner
    requires w' == w.(owner := WithStack(w.owner, first, KERNEL_STACK_FRAMES, t))
    ensures Balanced(w', sh, tasks[t := TaskMem(0, EMPTY_MM, first)], holders)
    ensures OthersKept(w, w', tasks, tasks[t := TaskMem(0, EMPTY_MM, first)], t)
  {
    var tasks' := tasks[t := TaskMem(0, EMPTY_MM, first)];
    forall u | u in tasks ensures TaskKept(w, w', tasks[u], u) {
      assert TaskOk(w, sh, tasks, holders, u);
      KeepsFrames(w, w', sh, total, tasks[u].root);
    }
    StackFramesOk(w, w', sh, tasks, holders, t, first);
    forall r | r in holders ensures HolderOk(tasks', holders, r) {
      assert HolderOk(tasks, holders, r);
    }
    forall u | u in tasks ensures TaskOk(w, sh, tasks, holders, u) {
    }
    StepBalanced(w, w', sh, total, tasks, tasks', holders, holders, t);
  }

  // Trees stay when only the books about frames outside of them change.
  lemma KeepsFrames(w: World, w': World, sh: Sharing, total: nat, q: nat)
    requires WorldOk(w, sh, total) && w'.mem == w.mem && w'.trees == w.trees
    requires forall f :: f in w.owner && w.owner[f].InTree? ==> f in w'.owner && w'.owner[f] == w.owner[f]
    ensures q in w.trees ==> Undisturbed(w, w', q)
  {
    forall f | f in w.owner ensures f in w.mem {
      assert f < total;
    }
  }

  // Task t takes over a tree that nobody held.
  lemma AttachBalanced(w: World, sh: Sharing, tasks: map<nat, TaskMem>, holders: Holders, t: nat, root: nat, mm: Mm)
    requires Balanced(w, sh, tasks, holders) && t in tasks && tasks[t].root == 0
    requires root in holders && holders[root] == None && SpaceOk(w, sh, root, mm)
    ensures Balanced(w, sh, tasks[t := tasks[t].(root := root, mm := mm)], holders[root := Some(t)])
  {
    var tasks', holders' := tasks[t := tasks[t].(root := root, mm := mm)], holders[root := Some(t)];
    assert HolderOk(tasks, holders, root);
    forall u | u in tasks' ensures TaskOk(w, sh, tasks', holders', u) {
      assert TaskOk(w, sh, tasks, holders, u);
    }
    forall r | r in holders' ensures HolderOk(tasks', holders', r) {
      assert HolderOk(tasks, holders, r);
    }
    forall f | f in w.owner ensures FrameOk(w, tasks', f) {
      assert FrameOk(w, tasks, f);
    }
  }

  // The tree of task t is given up.
  lemma DetachBalanced(w: World, w': World, sh: Sharing, total: nat, tasks: map<nat, TaskMem>, holders: Holders, t: nat,
                       mm: Mm)
    requires WorldOk(w, sh, total) && Balanced(w, sh, tasks, holders) && t in tasks && tasks[t].root != 0
    requires TreeGone(w, w', tasks[t].root)
    ensures Balanced(w', sh, tasks[t := tasks[t].(root := 0, mm := mm)], Dropped(holders, tasks[t].root))
    ensures OthersKept(w, w', tasks, tasks[t := tasks[t].(root := 0, mm := mm)], t)
  {
    var root := tasks[t].root;
    var tasks', holders' := tasks[t := tasks[t].(root := 0, mm := mm)], Dropped(holders, root);
    assert TaskOk(w, sh, tasks, holders, t);
    forall u | u in tasks && u != t ensures TaskKept(w, w', tasks[u], u) {
      GoneTaskKept(w, w', sh, total, tasks, holders, root, u);
    }
    forall r | r in holders' ensures HolderOk(tasks', holders', r) {
      assert HolderOk(tasks, holders, r);
    }
    GoneFrames(w, w', sh, total, tasks, tasks', holders, root);
    forall u | u in tasks ensures TaskOk(w, sh, tasks, holders, u) {
    }
    StepBalanced(w, w', sh, total, tasks, tasks', holders, holders', t);
  }

  // A tree that nobody held is given up.
  lemma PendingGone(w: World, w': World, sh: Sharing, total: nat, tasks: map<nat, TaskMem>, holders: Holders, root: nat)
    requires WorldOk(w, sh, total) && Balanced(w, sh, tasks, holders)
    requires root in holders && holders[root] == None && TreeGone(w, w', root)
    ensures Balanced(w', sh, tasks, Dropped(holders, root))
    ensures forall u :: u in tasks ==> TaskKept(w, w', tasks[u], u)
  {
    var holders' := Dropped(holders, root);
    forall u | u in tasks ensures TaskKept(w, w', tasks[u], u) && TaskOk(w', sh, tasks, holders', u) {
      assert TaskOk(w, sh, tasks, holders, u);
      GoneTaskKept(w, w', sh, total, tasks, holders, root, u);
      if tasks[u].root != 0 {
        SpaceUndisturbed(w, w', sh, total, tasks[u].root, tasks[u].mm);
      }
    }
    forall r | r in holders' ensures HolderOk(tasks, holders', r) {
      assert HolderOk(tasks, holders, r);
    }
    GoneFrames(w, w', sh, total, tasks, tasks, holders, root);
  }

  function Remaining(tasks: map<nat, TaskMem>, t: nat): map<nat, TaskMem> {
    map u | u in tasks && u != t :: tasks[u]
  }

  // The kernel stack of a task without an address space is given up, and the task is gone.
  lemma StackGone(w: World, w': World, sh: Sharing, total: nat, tasks: map<nat, TaskMem>, holders: Holders, t: nat)
    requires WorldOk(w, sh, total) && Balanced(w, sh, tasks, holders) && t in tasks && tasks[t].root == 0
    requires w' == w.(owner := WithoutRun(w.owner, tasks[t].stack, tasks[t].stack + KERNEL_STACK_FRAMES))
    ensures Balanced(w', sh, Remaining(tasks, t), holders)
    ensures OthersKept(w, w', tasks, Remaining(tasks, t), t)
  {
    var tasks' := Remaining(tasks, t);
    assert TaskOk(w, sh, tasks, holders, t);
    forall u | u in tasks && u != t ensures TaskKept(w, w', tasks[u], u) {
      assert TaskOk(w, sh, tasks, holders, u);
      KeepsFrames(w, w', sh, total, tasks[u].root);
    }
    forall r | r in holders ensures HolderOk(tasks', holders, r) {
      assert HolderOk(tasks, holders, r);
    }
    forall f | f in w'.owner ensures FrameOk(w', tasks', f) {
      assert FrameOk(w, tasks, f);
    }
    forall u | u in tasks ensures TaskOk(w, sh, tasks, holders, u) {
    }
    StepBalanced(w, w', sh, total, tasks, tasks', holders, holders, t);
  }

  // The child's pages are where the parent's are, and no others.
  lemma ForkedPages(w: World, sh: Sharing, total: nat, parent: nat, child: nat, v: nat)
    requires WorldOk(w, sh, total) && parent in w.trees && child in w.trees
    requires forall u: nat :: u < USER_PAGES ==> Clone.CopiedAt(w, sh, parent, child, u)
    ensures Leaf(w.mem, w.trees[child], v).Some? <==> Leaf(w.mem, w.trees[parent], v).Some?
    ensures Leaf(w.mem, w.trees[child], v).Some? ==>
      && (IsShared(sh, Leaf(w.mem, w.trees[child], v).value.frame)
          <==> IsShared(sh, Leaf(w.mem, w.trees[parent], v).value.frame))
      && (IsShared(sh, Leaf(w.mem, w.trees[child], v).value.frame) ==>
            Leaf(w.mem, w.trees[child], v).value.frame == Leaf(w.mem, w.trees[parent], v).value.frame)
  {
    if v < USER_PAGES {
      assert Clone.CopiedAt(w, sh, parent, child, v);
    } else {
      LeafIsUserPage(w, sh, total, parent, v);
      LeafIsUserPage(w, sh, total, child, v);
    }
  }

  lemma LeafIsUserPage(w: World, sh: Sharing, total: nat, r: nat, v: nat)
    requires WorldOk(w, sh, total) && r in w.trees
    ensures Leaf(w.mem, w.trees[r], v).Some? ==> v < USER_PAGES
  {
    assert TreeAt(w, sh, r);
    var nodes := w.trees[r];
    if Over(v, 1) in nodes {
      assert NodeOk(w.mem, nodes, sh, Over(v, 1)) && Parent(Over(v, 1)) == Over(v, 2);
      assert NodeOk(w.mem, nodes, sh, Over(v, 2)) && Parent(Over(v, 2)) == Over(v, 3);
      assert NodeOk(w.mem, nodes, sh, Over(v, 3));
    }
  }

  lemma ForkedSpace(w: World, sh: Sharing, total: nat, parent: nat, child: nat, mm: Mm)
    requires WorldOk(w, sh, total) && parent in w.trees && child in w.trees && SpaceOk(w, sh, parent, mm)
    requires forall v: nat :: v < USER_PAGES ==> Clone.CopiedAt(w, sh, parent, child, v)
    ensures SpaceOk(w, sh, child, mm)
  {
    SpaceMeans(w, sh, parent, mm);
    forall v: nat
      ensures Vacant(w, sh, child, v) <==> Vacant(w, sh, parent, v)
      ensures Leaf(w.mem, w.trees[child], v) == None <==> Leaf(w.mem, w.trees[parent], v) == None
    {
      ForkedPages(w, sh, total, parent, child, v);
    }
    ForkedHeapOk(w, sh, parent, child, mm);
    forall v: nat | Leaf(w.mem, w.trees[child], v).Some? && IsShared(sh, Leaf(w.mem, w.trees[child], v).value.frame)
      ensures Leaf(w.mem, w.trees[parent], v).Some?
      ensures Leaf(w.mem, w.trees[parent], v).value.frame == Leaf(w.mem, w.trees[child], v).value.frame
    {
      ForkedPages(w, sh, total, parent, child, v);
    }
    StillOnce(w, parent, w, child, sh);
    SpaceIsOk(w, sh, child, mm);
  }

  lemma ForkedHeapOk(w: World, sh: Sharing, parent: nat, child: nat, mm: Mm)
    requires parent in w.trees && child in w.trees && Sbrk.HeapOk(w, sh, parent, mm)
    requires forall v: nat :: Vacant(w, sh, child, v) <==> Vacant(w, sh, parent, v)
    requires forall v: nat :: Leaf(w.mem, w.trees[child], v) == None <==> Leaf(w.mem, w.trees[parent], v) == None
    ensures Sbrk.HeapOk(w, sh, child, mm) && (Sbrk.RoomToGrow(w, parent, mm) ==> Sbrk.RoomToGrow(w, child, mm))
  {
    forall v: nat | mm.brkStart / 4096 <= v < PageUp(mm.brk)
      ensures Leaf(w.mem, w.trees[child], v).Some? && !IsShared(sh, Leaf(w.mem, w.trees[child], v).value.frame)
    {
      assert !Vacant(w, sh, parent, v);
      assert !Vacant(w, sh, child, v);
    }
    forall v: nat | PageUp(mm.brk) <= v < Sbrk.HeapEnd(mm) ensures Vacant(w, sh, child, v) {
      assert Vacant(w, sh, parent, v);
    }
  }

  lemma OthersKeptTrans(w0: World, w1: World, w2: World, tasks0: map<nat, TaskMem>, tasks1: map<nat, TaskMem>,
                        tasks2: map<nat, TaskMem>, t: nat)
    requires OthersKept(w0, w1, tasks0, tasks1, t) && OthersKept(w1, w2, tasks1, tasks2, t)
    ensures OthersKept(w0, w2, tasks0, tasks2, t)
  {
    forall u | u in tasks0 && u != t ensures TaskKept(w0, w2, tasks0[u], u) {
      assert TaskKept(w0, w1, tasks0[u], u) && TaskKept(w1, w2, tasks1[u], u);
    }
  }

  lemma AllKeptOthersKept(w: World, w': World, tasks: map<nat, TaskMem>, tasks': map<nat, TaskMem>, t: nat)
    requires forall u :: u in tasks && u != t ==> TaskKept(w, w', tasks[u], u)
    requires forall u :: u != t ==> (u in tasks <==> u in tasks') && (u in tasks ==> tasks'[u] == tasks[u])
    ensures OthersKept(w, w', tasks, tasks', t)
  {
  }

  // ---------------------------------------------------------------- the memory of all tasks

  class Memory {
    const m: Machine
    var tasks: map<nat, TaskMem>
    ghost var holders: Holders

    /** No task yet; the machine as booting leaves it. */
    constructor (m: Machine)
      requires m.Valid() && SharingOk(m.sh) && m.trees == map[] && Settled(m.Now())
      requires forall f :: f in m.owner ==> m.owner[f] == Permanent
      ensures Sound() && this.m == m && tasks == map[]
    {
      this.m := m;
      tasks := map[];
      holders := map[];
    }

    ghost function Repr(): set<object> {
      {this, m, m.pmm, m.pmm.bitmap}
    }

    ghost predicate Valid()
      reads this, m, m.pmm, m.pmm.bitmap
    {
      m.Valid() && SharingOk(m.sh) && Balanced(m.Now(), m.sh, tasks, holders)
    }

    /** Between two system calls: no address space without a task, either. */
    ghost predicate Sound()
      reads this, m, m.pmm, m.pmm.bitmap
    {
      Valid() && AllHeld(holders)
    }

    // Frame f is a table or a page of task t, or belongs to its kernel stack.
    ghost predicate Belongs(f: nat, t: nat)
      reads this, m
    {
      && t in tasks && f in m.owner
      && (m.owner[f] == KernelStack(t) ||
          (m.owner[f].InTree? && m.owner[f].root == tasks[t].root && tasks[t].root in m.trees
           && m.owner[f].node in m.trees[tasks[t].root] && m.trees[tasks[t].root][m.owner[f].node] == f))
    }

    /** In every state between two system calls each frame in use is the kernel's for good or belongs to a task. */
    lemma EveryFrameAccounted(f: nat)
      requires Sound()
      ensures f in m.pmm.used ==> f in m.owner && (m.owner[f] == Permanent || exists t :: Belongs(f, t))
    {
      if f in m.owner {
        assert FrameOk(m.Now(), tasks, f) && Placed(m.Now(), f);
        if m.owner[f].KernelStack? {
          assert Belongs(f, m.owner[f].task);
        } else if m.owner[f].InTree? {
          assert HolderOk(tasks, holders, m.owner[f].root);
          assert Belongs(f, holders[m.owner[f].root].value);
        }
      }
    }

    /** No frame belongs to two tasks. */
    lemma OneOwner(f: nat, t: nat, u: nat)
      requires Sound() && Belongs(f, t) && Belongs(f, u)
      ensures t == u
    {
      TaskMemory(t);
      TaskMemory(u);
      assert FrameOk(m.Now(), tasks, f) && Placed(m.Now(), f);
      if m.owner[f].InTree? {
        assert HolderOk(tasks, holders, m.owner[f].root);
      }
    }

    /** Once every task is reaped, only the kernel's own frames are in use: nothing has leaked. */
    lemma NothingLeaked(f: nat)
      requires Sound() && tasks == map[] && f in m.pmm.used
      ensures f in m.owner && m.owner[f] == Permanent
    {
      EveryFrameAccounted(f);
    }

    lemma HasTree(t: nat)
      requires Valid() && t in tasks && tasks[t].root != 0
      ensures tasks[t].root in m.trees
    {
      TaskMemory(t);
    }

    lemma TaskMemory(t: nat)
      requires Valid() && t in tasks
      ensures TaskOk(m.Now(), m.sh, tasks, holders, t)
    {
    }

    // ---------------------------------------------------------------- steps of system calls

    // Nothing but a kernel stack of t was added to the books.
    static ghost predicate StackAdded(owner: map<nat, Owner>, owner': map<nat, Owner>, t: nat) {
      && (forall f :: f in owner ==> f in owner' && owner'[f] == owner[f])
      && (forall f :: f in owner' && f !in owner ==> owner'[f] == KernelStack(t))
    }

    // There are not enough free frames in a row for a kernel stack.
    static ghost predicate NoStackRun(w: World, total: nat) {
      forall lo :: 1 <= lo && lo + KERNEL_STACK_FRAMES <= total ==> !Pmm.FreeRun(w.owner.Keys, lo, KERNEL_STACK_FRAMES)
    }

    static lemma StackSize(owner: map<nat, Owner>, first: nat, t: nat)
      ensures |WithStack(owner, first, KERNEL_STACK_FRAMES, t)| <= |owner| + KERNEL_STACK_FRAMES
    {
      var owner' := WithStack(owner, first, KERNEL_STACK_FRAMES, t);
      Machine.StackKeys(owner, first, KERNEL_STACK_FRAMES, t);
      RunSize(owner.Keys, owner'.Keys, first, KERNEL_STACK_FRAMES);
    }

    static lemma {:induction false} RunSize(keys: set<nat>, more: set<nat>, first: nat, count: nat)
      requires forall f :: f in more <==> f in keys || first <= f < first + count
      ensures |more| <= |keys| + count
      decreases count
    {
      if count == 0 {
        assert more == keys;
      } else {
        var f := first + count - 1;
        RunSize(keys, if f in keys then more else more - {f}, first, count - 1);
      }
    }

    /** task_alloc: a task with a kernel stack and nothing else.  `room` says whether its record could be had. */
    method AllocTask(t: nat, room: bool) returns (ok: bool)
      requires Valid() && t !in tasks
      modifies Repr()
      ensures Valid() && m.mem == old(m.mem) && m.trees == old(m.trees) && holders == old(holders)
      ensures !ok ==> tasks == old(tasks) && m.owner == old(m.owner)
      ensures ok ==> t in tasks && tasks[t] == TaskMem(0, EMPTY_MM, tasks[t].stack)
      ensures !ok ==> !room || NoStackRun(old(m.Now()), m.pmm.totalFrames)
      ensures StackAdded(old(m.owner), m.owner, t) && |m.owner| <= |old(m.owner)| + KERNEL_STACK_FRAMES
      ensures OthersKept(old(m.Now()), m.Now(), old(tasks), tasks, t)
    {
      ghost var w := m.Now();
      KeptBalanced(w, w, m.sh, m.pmm.totalFrames, tasks, holders);
      if !room {
        return false;
      }
      var first := m.AllocStack(KERNEL_STACK_FRAMES, t);
      if first == 0 {
        return false;
      }
      StackSize(w.owner, first, t);
      StackBalanced(w, m.Now(), m.sh, m.pmm.totalFrames, tasks, holders, t, first);
      tasks := tasks[t := TaskMem(0, EMPTY_MM, first)];
      ok := true;
    }

    method Attach(t: nat, root: nat, mm: Mm)
      requires Valid() && t in tasks && tasks[t].root == 0
      requires root in holders && holders[root] == None && SpaceOk(m.Now(), m.sh, root, mm)
      modifies this
      ensures Valid() && tasks == old(tasks)[t := old(tasks)[t].(root := root, mm := mm)]
      ensures holders == old(holders)[root := Some(t)]
    {
      AttachBalanced(m.Now(), m.sh, tasks, holders, t, root, mm);
      tasks := tasks[t := tasks[t].(root := root, mm := mm)];
      holders := holders[root := Some(t)];
    }

    // The frames of a task and no others were given back.
    static ghost predicate TaskGone(w: World, w': World, k: TaskMem, t: nat) {
      && w'.mem == w.mem
      && (forall q :: q in w'.trees <==> q in w.trees && (k.root == 0 || q != k.root))
      && (forall q :: q in w'.trees ==> w'.trees[q] == w.trees[q])
      && (forall f :: f in w'.owner <==>
            && f in w.owner && w.owner[f] != KernelStack(t)
            && !(k.root != 0 && w.owner[f].InTree? && w.owner[f].root == k.root))
      && (forall f :: f in w'.owner ==> w'.owner[f] == w.owner[f])
    }

    /** task_release, as far as memory goes: exactly the frames of task t are given back, each once. */
    method Release(t: nat)
      requires Valid() && t in tasks
      modifies Repr()
      ensures Valid() && t !in tasks && (old(AllHeld(holders)) ==> AllHeld(holders))
      ensures TaskGone(old(m.Now()), m.Now(), old(tasks)[t], t)
      ensures OthersKept(old(m.Now()), m.Now(), old(tasks), tasks, t)
    {
      ghost var w := m.Now();
      ghost var tasks0 := tasks;
      DetachTree(t);
      ghost var w1 := m.Now();
      ghost var tasks1 := tasks;
      ReleaseMeans(w, w1, m.sh, tasks0[t], tasks1, holders, t);
      FreeKernelStack(t);
      OthersKeptTrans(w, w1, m.Now(), tasks0, tasks1, tasks, t);
    }

    static lemma ReleaseMeans(w: World, w1: World, sh: Sharing, k: TaskMem, tasks1: map<nat, TaskMem>, held: Holders,
                              t: nat)
      requires t in tasks1 && tasks1[t] == k.(root := 0) && Balanced(w1, sh, tasks1, held)
      requires if k.root == 0 then w1 == w else TreeGone(w, w1, k.root)
      ensures TaskGone(w, w1.(owner := WithoutRun(w1.owner, k.stack, k.stack + KERNEL_STACK_FRAMES)), k, t)
    {
      assert TaskOk(w1, sh, tasks1, held, t);
      forall f | f in w1.owner ensures w1.owner[f] == KernelStack(t) <==> InRun(f, k.stack, KERNEL_STACK_FRAMES) {
        assert FrameOk(w1, tasks1, f);
      }
    }

    method DetachTree(t: nat)
      requires Valid() && t in tasks
      modifies Repr()
      ensures Valid() && t in tasks && tasks[t] == old(tasks)[t].(root := 0)
      ensures (old(AllHeld(holders)) ==> AllHeld(holders))
      ensures
        if old(tasks)[t].root == 0 then m.Now() == old(m.Now()) else TreeGone(old(m.Now()), m.Now(), old(tasks)[t].root)
      ensures OthersKept(old(m.Now()), m.Now(), old(tasks), tasks, t)
    {
      ghost var w := m.Now();
      if tasks[t].root != 0 {
        HasTree(t);
        Teardown.Free(m, tasks[t].root);
        DetachBalanced(w, m.Now(), m.sh, m.pmm.totalFrames, tasks, holders, t, tasks[t].mm);
        holders := Dropped(holders, tasks[t].root);
        tasks := tasks[t := tasks[t].(root := 0, mm := tasks[t].mm)];
      } else {
        KeptBalanced(w, w, m.sh, m.pmm.totalFrames, tasks, holders);
      }
    }

    method FreeKernelStack(t: nat)
      requires Valid() && t in tasks && tasks[t].root == 0
      modifies Repr()
      ensures Valid() && t !in tasks && holders == old(holders)
      ensures m.Now() == old(m.Now()).(owner :=
        WithoutRun(old(m.owner), old(tasks)[t].stack, old(tasks)[t].stack + KERNEL_STACK_FRAMES))
      ensures OthersKept(old(m.Now()), m.Now(), old(tasks), tasks, t)
    {
      ghost var w := m.Now();
      TaskMemory(t);
      m.FreeStack(tasks[t].stack, KERNEL_STACK_FRAMES);
      StackGone(w, m.Now(), m.sh, m.pmm.totalFrames, tasks, holders, t);
      tasks := Remaining(tasks, t);
    }

    // ---------------------------------------------------------------- sbrk and stack faults

    method Brk(t: nat, increment: int) returns (ret: int)
      requires Sound() && t in tasks && tasks[t].root != 0
      modifies Repr()
      ensures Sound() && t in tasks && tasks == old(tasks)[t := old(tasks)[t].(mm := tasks[t].mm)]
      ensures Sbrk.HeapStep(old(m.Now()), m.Now(), m.sh, m.pmm.totalFrames, tasks[t].root, old(tasks)[t].mm, increment,
                            ret, tasks[t].mm)
      ensures tasks[t].root in old(m.trees) && tasks[t].root in m.trees
      ensures ret == -1 && HasRoom(old(tasks)[t].mm) ==> Sbrk.SameLeaves(old(m.Now()), m.Now(), tasks[t].root)
      ensures Sbrk.Answered(old(m.Now()), m.Now(), m.pmm.totalFrames, old(tasks)[t].mm, increment, ret, tasks[t].mm)
      ensures OthersKept(old(m.Now()), m.Now(), old(tasks), tasks, t)
    {
      ghost var w := m.Now();
      TaskMemory(t);
      SpaceMeans(w, m.sh, tasks[t].root, tasks[t].mm);
      var mm;
      ret, mm := Sbrk.TaskSbrk(m, tasks[t].root, tasks[t].mm, increment);
      SteppedSpace(w, m.Now(), m.sh, m.pmm.totalFrames, tasks[t].root, tasks[t].mm, increment, ret, mm);
      if ret == -1 && HasRoom(tasks[t].mm) {
        Sbrk.RefusedChangesNothing(w, m.Now(), m.sh, m.pmm.totalFrames, tasks[t].root, tasks[t].mm, increment);
      }
      RecordHeap(w, t, increment, ret, mm);
    }

    method RecordHeap(ghost w: World, t: nat, ghost increment: int, ghost ret: int, mm: Mm)
      requires m.Valid() && SharingOk(m.sh) && AllHeld(holders) && t in tasks && tasks[t].root != 0
      requires WorldOk(w, m.sh, m.pmm.totalFrames) && Balanced(w, m.sh, tasks, holders)
      requires Sbrk.HeapStep(w, m.Now(), m.sh, m.pmm.totalFrames, tasks[t].root, tasks[t].mm, increment, ret, mm)
      requires SpaceOk(m.Now(), m.sh, tasks[t].root, mm)
      modifies this`tasks
      ensures Sound() && tasks == old(tasks)[t := old(tasks)[t].(mm := mm)]
      ensures OthersKept(w, m.Now(), old(tasks), tasks, t)
    {
      HeapStepBalanced(w, m.Now(), m.sh, m.pmm.totalFrames, tasks, holders, t, increment, ret, mm);
      tasks := tasks[t := tasks[t].(mm := mm)];
    }

    static lemma HeapStepBalanced(w: World, w': World, sh: Sharing, total: nat, tasks: map<nat, TaskMem>,
                                  holders: Holders, t: nat,
                                  increment: int, ret: int, mm': Mm)
      requires WorldOk(w, sh, total) && Balanced(w, sh, tasks, holders) && t in tasks && tasks[t].root != 0
      requires Sbrk.HeapStep(w, w', sh, total, tasks[t].root, tasks[t].mm, increment, ret, mm')
      requires SpaceOk(w', sh, tasks[t].root, mm')
      ensures Balanced(w', sh, tasks[t := tasks[t].(mm := mm')], holders)
      ensures OthersKept(w, w', tasks, tasks[t := tasks[t].(mm := mm')], t)
    {
      var mm := tasks[t].mm;
      if ret == -1 || PageUp(mm'.brk) >= PageUp(mm.brk) {
        GrownItself(w, sh, tasks[t].root);
        TreeGrew(w, w', sh, total, tasks, holders, t, mm');
      } else {
        TreeShrank(w, w', sh, total, tasks, holders, t, mm', PageUp(mm'.brk), PageUp(mm.brk));
      }
    }

    static lemma TreeGrew(w: World, w': World, sh: Sharing, total: nat, tasks: map<nat, TaskMem>, holders: Holders,
                          t: nat, mm: Mm)
      requires WorldOk(w, sh, total) && Balanced(w, sh, tasks, holders) && t in tasks && tasks[t].root != 0
      requires tasks[t].root in w.trees && Grown(w, w', sh, tasks[t].root)
      requires SpaceOk(w', sh, tasks[t].root, mm)
      ensures Balanced(w', sh, tasks[t := tasks[t].(mm := mm)], holders)
      ensures OthersKept(w, w', tasks, tasks[t := tasks[t].(mm := mm)], t)
    {
      GrownKeepsOthers(w, w', sh, total, tasks, holders, t);
      GrownFrames(w, w', sh, tasks, tasks[t := tasks[t].(mm := mm)], holders, tasks[t].root);
      OwnTreeChanged(w, w', sh, total, tasks, holders, t, mm);
    }

    static lemma TreeShrank(w: World, w': World, sh: Sharing, total: nat, tasks: map<nat, TaskMem>, holders: Holders,
                            t: nat, mm: Mm,
                            lo: nat, hi: nat)
      requires WorldOk(w, sh, total) && Balanced(w, sh, tasks, holders) && t in tasks && tasks[t].root != 0
      requires tasks[t].root in w.trees && tasks[t].root in w'.trees
      requires Sbrk.FramesDropped(w, w', sh, tasks[t].root, lo, hi)
      requires SpaceOk(w', sh, tasks[t].root, mm)
      ensures Balanced(w', sh, tasks[t := tasks[t].(mm := mm)], holders)
      ensures OthersKept(w, w', tasks, tasks[t := tasks[t].(mm := mm)], t)
    {
      DroppedKeepsOthers(w, w', sh, total, tasks, holders, t, lo, hi);
      DroppedFrames(w, w', sh, tasks, tasks[t := tasks[t].(mm := mm)], holders, tasks[t].root, lo, hi);
      OwnTreeChanged(w, w', sh, total, tasks, holders, t, mm);
    }

    static lemma FaultSpace(w: World, w': World, sh: Sharing, r: nat, mm: Mm, page: nat)
      requires r in w.trees && r in w'.trees && SpaceOk(w, sh, r, mm) && page >= Sbrk.HeapEnd(mm)
      requires forall v: nat :: v != page ==> Leaf(w'.mem, w'.trees[r], v) == Leaf(w.mem, w.trees[r], v)
      requires Leaf(w'.mem, w'.trees[r], page) == Leaf(w.mem, w.trees[r], page)
        || (Leaf(w'.mem, w'.trees[r], page).Some? && !IsShared(sh, Leaf(w'.mem, w'.trees[r], page).value.frame))
      ensures SpaceOk(w', sh, r, mm)
    {
      SpaceMeans(w, sh, r, mm);
      FaultHeapOk(w, w', sh, r, mm, page);
      StillOnce(w, r, w', r, sh);
      SpaceIsOk(w', sh, r, mm);
    }

    static lemma FaultHeapOk(w: World, w': World, sh: Sharing, r: nat, mm: Mm, page: nat)
      requires r in w.trees && r in w'.trees && Sbrk.HeapOk(w, sh, r, mm) && page >= Sbrk.HeapEnd(mm)
      requires forall v: nat :: v != page ==> Leaf(w'.mem, w'.trees[r], v) == Leaf(w.mem, w.trees[r], v)
      ensures Sbrk.HeapOk(w', sh, r, mm) && (Sbrk.RoomToGrow(w, r, mm) ==> Sbrk.RoomToGrow(w', r, mm))
    {
      Sbrk.PageUpBelowEnd(mm, mm.brk);
      forall v: nat | PageUp(mm.brk) <= v < Sbrk.HeapEnd(mm) ensures Vacant(w', sh, r, v) {
        assert Vacant(w, sh, r, v) by {
          assert Leaf(w'.mem, w'.trees[r], v) == Leaf(w.mem, w.trees[r], v);
        }
      }
    }

    // After a call of sbrk.
    static lemma SteppedSpace(w: World, w': World, sh: Sharing, total: nat, r: nat, mm: Mm, increment: int, ret: int,
                              mm': Mm)
      requires r in w.trees && r in w'.trees && SpaceOk(w, sh, r, mm)
      requires Sbrk.HeapStep(w, w', sh, total, r, mm, increment, ret, mm') && Sbrk.HeapOk(w', sh, r, mm')
      requires Sbrk.RoomToGrow(w, r, mm) ==> Sbrk.RoomToGrow(w', r, mm')
      ensures SpaceOk(w', sh, r, mm')
    {
      SpaceMeans(w, sh, r, mm);
      SteppedShared(w, w', sh, total, r, mm, increment, ret, mm');
      StillOnce(w, r, w', r, sh);
      SpaceIsOk(w', sh, r, mm');
    }

    static lemma SteppedShared(w: World, w': World, sh: Sharing, total: nat, r: nat, mm: Mm, increment: int, ret: int,
                               mm': Mm)
      requires r in w.trees && r in w'.trees && Sbrk.HeapStep(w, w', sh, total, r, mm, increment, ret, mm')
      ensures SharedStay(w, r, w', r, sh)
    {
    }

    /** A page fault of task t at addr; anything but 0 means that it must die. */
    method Fault(t: nat, addr: nat, present: bool) returns (code: nat)
      requires Sound() && t in tasks && tasks[t].root != 0
      requires present <==> Translate(m.mem, tasks[t].root, addr).Some?
      modifies Repr()
      ensures Sound() && tasks == old(tasks)
      ensures tasks[t].root in old(m.trees) && tasks[t].root in m.trees
      ensures code == 0 ==> PageFault.StackPageAdded(old(m.Now()), m.Now(), m.sh, tasks[t].root, addr / 4096)
      ensures code == 0 ==> tasks[t].mm.stackLimit <= addr < tasks[t].mm.stackStart
      ensures PageFault.Answers(old(m.Now()), m.pmm.totalFrames, tasks[t].mm, addr, present, code)
      ensures code != 0 ==>
        forall v: nat :: Leaf(m.mem, m.trees[tasks[t].root], v) == old(Leaf(m.mem, m.trees[tasks[t].root], v))
      ensures OthersKept(old(m.Now()), m.Now(), old(tasks), tasks, t)
    {
      ghost var w := m.Now();
      TaskMemory(t);
      var r, mm := tasks[t].root, tasks[t].mm;
      code := PageFault.UserFault(m, r, mm, addr, present);
      SpaceMeans(w, m.sh, r, mm);
      FaultSettled(w, t, addr / 4096, code);
    }

    lemma FaultSettled(w: World, t: nat, page: nat, code: nat)
      requires m.Valid() && SharingOk(m.sh) && AllHeld(holders) && t in tasks && tasks[t].root != 0
      requires WorldOk(w, m.sh, m.pmm.totalFrames) && Balanced(w, m.sh, tasks, holders)
      requires tasks[t].root in w.trees && tasks[t].root in m.trees && Grown(w, m.Now(), m.sh, tasks[t].root)
      requires code == 0 ==> page >= tasks[t].mm.stackLimit / 4096
      requires code == 0 ==> PageFault.StackPageAdded(w, m.Now(), m.sh, tasks[t].root, page)
      requires code != 0 ==>
        forall v: nat :: Leaf(m.mem, m.trees[tasks[t].root], v) == Leaf(w.mem, w.trees[tasks[t].root], v)
      ensures Sound() && OthersKept(w, m.Now(), tasks, tasks, t)
    {
      var r, mm := tasks[t].root, tasks[t].mm;
      assert TaskOk(w, m.sh, tasks, holders, t);
      SpaceMeans(w, m.sh, r, mm);
      FaultSpace(w, m.Now(), m.sh, r, mm, if code == 0 then page else Sbrk.HeapEnd(mm));
      TreeGrew(w, m.Now(), m.sh, m.pmm.totalFrames, tasks, holders, t, mm);
      assert tasks[t := tasks[t].(mm := mm)] == tasks;
    }

    // ---------------------------------------------------------------- user memory

    /** copy_to_user for task t, and equally what the task's own stores do: just its own bytes change. */
    method Store(t: nat, va: nat, src: seq<byte>) returns (rc: int, ghost done: nat)
      requires Sound() && t in tasks && tasks[t].root != 0
      modifies m`mem
      ensures Sound() && tasks[t].root in m.trees && tasks[t].root in old(m.trees) && done <= |src|
      ensures UserCopy.WrittenUpTo(old(m.Now()), m.Now(), tasks[t].root, va, src, done)
      ensures rc == 0 <==>
        UserCopy.RangeValid(va, |src|) && old(UserCopy.AllOpen(m.mem, m.trees[tasks[t].root], va, |src|, true))
      ensures rc == 0 ==> done == |src|
      ensures OthersKept(old(m.Now()), m.Now(), tasks, tasks, t)
    {
      ghost var w := m.Now();
      HasTree(t);
      rc, done := UserCopy.CopyToUser(m, tasks[t].root, va, src);
      WriteBalanced(w, m.Now(), m.sh, m.pmm.totalFrames, tasks, holders, t, va, src[..done]);
    }

    /** In every reachable state the memory of a task is an array of bytes: what it stores it reads back, and its other
        bytes stay. */
    lemma StoredIsRead(t: nat, va: nat, src: seq<byte>, x: nat)
      requires Valid() && t in tasks && tasks[t].root != 0
      ensures tasks[t].root in m.trees
      ensures UserCopy.AllOpen(m.mem, m.trees[tasks[t].root], va, |src|, false) ==>
        UserCopy.ReadByte(UserCopy.WriteBytes(m.mem, m.trees[tasks[t].root], va, src), m.trees[tasks[t].root], x) ==
          if va <= x < va + |src| then src[x - va] else UserCopy.ReadByte(m.mem, m.trees[tasks[t].root], x)
    {
      TaskMemory(t);
      SpaceMeans(m.Now(), m.sh, tasks[t].root, tasks[t].mm);
      SpaceUnaliased(m.Now(), m.sh, m.pmm.totalFrames, tasks[t].root);
      if UserCopy.AllOpen(m.mem, m.trees[tasks[t].root], va, |src|, false) {
        UserCopy.ReadAfterWrite(m.mem, m.trees[tasks[t].root], va, src, x);
      }
    }

    /** A word that the kernel stores for a task is the word that the task finds there. */
    lemma StoredWordIsRead(t: nat, va: nat, x: nat)
      requires Valid() && t in tasks && tasks[t].root != 0 && x < 0x1_0000_0000_0000_0000
      ensures tasks[t].root in m.trees
      ensures UserCopy.AllOpen(m.mem, m.trees[tasks[t].root], va, 8, false) ==>
        var nodes := m.trees[tasks[t].root];
        UserCopy.ReadWord(UserCopy.WriteBytes(m.mem, nodes, va, Words.WordBytes(x, 8)), nodes, va, 8) == x
    {
      TaskMemory(t);
      SpaceMeans(m.Now(), m.sh, tasks[t].root, tasks[t].mm);
      SpaceUnaliased(m.Now(), m.sh, m.pmm.totalFrames, tasks[t].root);
      if UserCopy.AllOpen(m.mem, m.trees[tasks[t].root], va, 8, false) {
        UserCopy.WordIsRead(m.mem, m.trees[tasks[t].root], va, x);
      }
    }

    // ---------------------------------------------------------------- fork

    /** What the child of a fork finds: at every user address the parent's byte, with the parent's right to read, to
        write and to execute it; and none of its frames is the parent's but those that all programs share. */
    static lemma ChildReadsTheSame(w: World, w': World, sh: Sharing, total: nat, parent: TaskMem, child: TaskMem,
                                   x: nat)
      requires WorldOk(w', sh, total) && IsFork(w, w', sh, parent, child) && parent.root in w.trees
      requires x < 0x8000_0000_0000
      ensures child.mm == parent.mm
      ensures var mem, mine, his := w'.mem, w'.trees[child.root], w'.trees[parent.root];
        && UserCopy.ReadByte(mem, mine, x) == UserCopy.ReadByte(mem, his, x)
        && (UserCopy.Open(mem, mine, x, false) <==> UserCopy.Open(mem, his, x, false))
        && (UserCopy.Open(mem, mine, x, true) <==> UserCopy.Open(mem, his, x, true))
        && (Leaf(mem, mine, x / 4096).Some? <==> Leaf(mem, his, x / 4096).Some?)
        && (Leaf(mem, mine, x / 4096).Some? ==>
              Leaf(mem, mine, x / 4096).value.nx == Leaf(mem, his, x / 4096).value.nx)
        && (Leaf(mem, mine, x / 4096).Some? && Leaf(mem, his, x / 4096).Some?
            && Leaf(mem, mine, x / 4096).value.frame == Leaf(mem, his, x / 4096).value.frame ==>
              IsShared(sh, Leaf(mem, his, x / 4096).value.frame))
    {
      assert Clone.CopiedAt(w', sh, parent.root, child.root, x / 4096);
      if Leaf(w'.mem, w'.trees[parent.root], x / 4096).Some? {
        LeafFrame(w', sh, total, parent.root, x / 4096);
        LeafFrame(w', sh, total, child.root, x / 4096);
      }
    }

    // The frames that belong to `child` were free before.
    lemma NewTaskFrames(w: World, old_tasks: map<nat, TaskMem>, old_holders: Holders, child: nat, f: nat)
      requires Valid() && Balanced(w, m.sh, old_tasks, old_holders) && WorldOk(w, m.sh, m.pmm.totalFrames)
      requires child in tasks && child !in old_tasks && tasks[child].root !in w.trees
      requires forall g :: g in w.owner ==> g in m.owner && m.owner[g] == w.owner[g]
      requires Belongs(f, child)
      ensures f !in w.owner
    {
      forall g | g in w.owner ensures FrameOk(w, old_tasks, g) && Placed(w, g) {
      }
    }

    // What fork made: a task whose pages are copies of the parent's, in the same places.
    static ghost predicate IsFork(w: World, w': World, sh: Sharing, parent: TaskMem, child: TaskMem) {
      && child.mm == parent.mm && parent.root in w'.trees
      && child.root in w'.trees && child.root !in w.trees && child.root != 0
      && (forall f :: f in w.owner ==> f in w'.owner && w'.owner[f] == w.owner[f])
      && (forall v: nat :: v < USER_PAGES ==> Clone.CopiedAt(w', sh, parent.root, child.root, v))
    }

    // Why fork may fail: no room for the record, no kernel stack, or fewer free frames than the stack and a copy of the
    // parent's tree may need.
    static ghost predicate ForkFails(w: World, total: nat, parent: nat, room: bool) {
      !room || NoStackRun(w, total) || (parent in w.trees && Scarce(w, total, |w.trees[parent]| + 8))
    }

    /** Fork, as far as memory goes: the child is a copy of the parent, or everything is as before. */
    method Fork(parent: nat, child: nat, room: bool) returns (ok: bool)
      requires Sound() && parent in tasks && tasks[parent].root != 0 && child !in tasks
      modifies Repr()
      ensures Sound() && parent in tasks && (ok <==> child in tasks)
      ensures ok ==> IsFork(old(m.Now()), m.Now(), m.sh, tasks[parent], tasks[child])
      ensures !ok ==> m.owner == old(m.owner) && m.trees == old(m.trees)
      ensures !ok ==> ForkFails(old(m.Now()), m.pmm.totalFrames, old(tasks)[parent].root, room)
      ensures OthersKept(old(m.Now()), m.Now(), old(tasks), tasks, child)
    {
      ghost var w := m.Now();
      ghost var tasks0 := tasks;
      ghost var holders0 := holders;
      HasTree(parent);
      ok := AllocTask(child, room);
      if !ok {
        return;
      }
      ghost var w1 := m.Now();
      ghost var tasks1 := tasks;
      ok := CloneInto(parent, child);
      OthersKeptTrans(w, w1, m.Now(), tasks0, tasks1, tasks, child);
      if !ok {
        ghost var w2 := m.Now();
        Release(child);
        OthersKeptTrans(w, w2, m.Now(), tasks0, tasks1, tasks, child);
        NothingLeft(w, w2, m.Now(), m.sh, tasks0, holders0, child, tasks1[child].stack);
      }
    }

    // Releasing a task that got no further than its kernel stack leaves the books as before it.
    static lemma NothingLeft(w: World, w1: World, w2: World, sh: Sharing, tasks0: map<nat, TaskMem>, holders0: Holders,
                             child: nat, stack: nat)
      requires Balanced(w, sh, tasks0, holders0) && child !in tasks0 && w1.trees == w.trees
      requires StackAdded(w.owner, w1.owner, child) && TaskGone(w1, w2, TaskMem(0, EMPTY_MM, stack), child)
      ensures w2.owner == w.owner && w2.trees == w.trees
    {
      forall f | f in w.owner ensures w.owner[f] != KernelStack(child) {
        assert FrameOk(w, tasks0, f);
      }
    }

    static lemma ForkAttachable(w: World, w': World, sh: Sharing, total: nat, tasks: map<nat, TaskMem>,
                                holders: Holders,
                                parent: nat, root: nat)
      requires WorldOk(w, sh, total) && Balanced(w, sh, tasks, holders) && parent in tasks && tasks[parent].root != 0
      requires WorldOk(w', sh, total) && root != 0 && Clone.Forked(w, w', sh, tasks[parent].root, root)
      ensures Balanced(w', sh, tasks, holders[root := None])
      ensures forall u :: u in tasks ==> TaskKept(w, w', tasks[u], u)
      ensures SpaceOk(w', sh, root, tasks[parent].mm)
    {
      NewTreeBalanced(w, w', sh, total, tasks, holders, root);
      assert TaskOk(w', sh, tasks, holders[root := None], parent);
      ForkedSpace(w', sh, total, tasks[parent].root, root, tasks[parent].mm);
    }

    method CloneInto(parent: nat, child: nat) returns (ok: bool)
      requires Sound() && parent in tasks && tasks[parent].root != 0
      requires child in tasks && tasks[child] == TaskMem(0, EMPTY_MM, tasks[child].stack)
      modifies Repr()
      ensures Sound() && parent in tasks && child in tasks
      ensures ok ==> IsFork(old(m.Now()), m.Now(), m.sh, tasks[parent], tasks[child])
      ensures !ok ==>
        tasks == old(tasks) && m.owner == old(m.owner) && m.trees == old(m.trees) && holders == old(holders)
      ensures old(tasks)[parent].root in old(m.trees)
      ensures !ok ==>
        Scarce(old(m.Now()), m.pmm.totalFrames, |old(m.trees)[old(tasks)[parent].root]| + 4)
      ensures OthersKept(old(m.Now()), m.Now(), old(tasks), tasks, child)
    {
      ghost var w := m.Now();
      HasTree(parent);
      var root := Clone.CloneUserSpace(m, tasks[parent].root);
      if root == 0 {
        KeptBalanced(w, m.Now(), m.sh, m.pmm.totalFrames, tasks, holders);
        return false;
      }
      AttachClone(w, parent, child, root);
      ok := true;
    }

    method AttachClone(ghost w: World, parent: nat, child: nat, root: nat)
      requires m.Valid() && SharingOk(m.sh) && AllHeld(holders) && parent in tasks && tasks[parent].root != 0
      requires WorldOk(w, m.sh, m.pmm.totalFrames) && Balanced(w, m.sh, tasks, holders)
      requires child in tasks && tasks[child] == TaskMem(0, EMPTY_MM, tasks[child].stack)
      requires root != 0 && Clone.Forked(w, m.Now(), m.sh, tasks[parent].root, root)
      modifies this
      ensures Sound() && parent in tasks && child in tasks && IsFork(w, m.Now(), m.sh, tasks[parent], tasks[child])
      ensures OthersKept(w, m.Now(), old(tasks), tasks, child)
    {
      ForkAttachable(w, m.Now(), m.sh, m.pmm.totalFrames, tasks, holders, parent, root);
      holders := holders[root := None];
      Attach(child, root, tasks[parent].mm);
    }

    // ---------------------------------------------------------------- execve and spawn

    // A finished image can become the address space of a task.
    static ghost predicate Fits(w: World, w': World, sh: Sharing, root: nat, mm: Mm) {
      && root != 0 && NewTree(w, w', root) && SpaceOk(w', sh, root, mm)
    }

    static lemma ProgramFits(w: World, w': World, sh: Sharing, total: nat, data: seq<byte>, nxOn: bool, argv: seq<Arg>,
                             n: nat, p: Program, top: seq<byte>)
      requires WorldOk(w', sh, total) && SharingOk(sh) && Elf.ElfOk(data) && n <= USER_STACK_MAX_PAGES
      requires Built(w, w', sh, LoadedImage(data, nxOn), argv, n, p, top)
      ensures Fits(w, w', sh, p.root, p.mm)
    {
      var im := LoadedImage(data, nxOn);
      RootIsFrame(w', sh, total, p.root);
      NewProgram.HeapStartBound(im.segs, |im.data|);
      NewProgram.EmptyHeapOk(w, w', sh, p.root, im, n, top, p.mm);
      NewProgram.HeapHasRoom(w, w', sh, p.root, im, n, top, p.mm);
      NewProgram.ImageUnaliased(w, w', sh, total, p.root, im, n, top);
      SpaceIsOk(w', sh, p.root, p.mm);
    }

    static lemma OutcomeFits(w: World, w': World, sh: Sharing, total: nat, r: nat, call: Exec.Call, o: Exec.Outcome)
      requires WorldOk(w', sh, total) && SharingOk(sh) && Exec.Prepared(w, w', sh, r, call, o)
      ensures Fits(w, w', sh, o.p.root, o.p.mm)
    {
      ProgramFits(w, w', sh, total, call.env.files[o.path], call.env.nxOn, o.argv, USER_STACK_PAGES, o.p, o.top);
    }

    static lemma RootIsFrame(w: World, sh: Sharing, total: nat, root: nat)
      requires WorldOk(w, sh, total) && root in w.trees
      ensures root != 0
    {
      assert TreeAt(w, sh, root);
      assert Owns(w, root, ROOT);
    }

    // The address space of t is replaced by one that nobody held.
    static lemma ReplaceBalanced(w: World, w': World, sh: Sharing, total: nat, tasks: map<nat, TaskMem>,
                                 holders: Holders, t: nat,
                                 root: nat, mm: Mm)
      requires WorldOk(w, sh, total) && Balanced(w, sh, tasks, holders) && t in tasks && tasks[t].root != 0
      requires TreeGone(w, w', tasks[t].root) && root in holders && holders[root] == None
      requires SpaceOk(w, sh, root, mm)
      ensures Balanced(w', sh, tasks[t := tasks[t].(root := root, mm := mm)],
                       Dropped(holders, tasks[t].root)[root := Some(t)])
      ensures OthersKept(w, w', tasks, tasks[t := tasks[t].(root := root, mm := mm)], t)
    {
      assert TaskOk(w, sh, tasks, holders, t) && HolderOk(tasks, holders, root);
      DetachBalanced(w, w', sh, total, tasks, holders, t, mm);
      GoneUndisturbed(w, w', total, sh, tasks[t].root, root);
      SpaceUndisturbed(w, w', sh, total, root, mm);
      var tasks1 := tasks[t := tasks[t].(root := 0, mm := mm)];
      AttachBalanced(w', sh, tasks1, Dropped(holders, tasks[t].root), t, root, mm);
      assert tasks1[t := tasks1[t].(root := root, mm := mm)] == tasks[t := tasks[t].(root := root, mm := mm)];
    }

    static lemma ExecBalanced(w: World, mid: World, w': World, sh: Sharing, total: nat, tasks: map<nat, TaskMem>,
                              holders: Holders,
                              t: nat, root: nat, mm: Mm) returns (held: Holders)
      requires WorldOk(w, sh, total) && WorldOk(mid, sh, total) && Balanced(w, sh, tasks, holders) && AllHeld(holders)
      requires t in tasks && tasks[t].root != 0 && Fits(w, mid, sh, root, mm) && TreeGone(mid, w', tasks[t].root)
      ensures Balanced(w', sh, tasks[t := tasks[t].(root := root, mm := mm)], held) && AllHeld(held)
      ensures OthersKept(w, w', tasks, tasks[t := tasks[t].(root := root, mm := mm)], t)
    {
      assert TaskOk(w, sh, tasks, holders, t);
      NewTreeBalanced(w, mid, sh, total, tasks, holders, root);
      AllKeptOthersKept(w, mid, tasks, tasks, t);
      ReplaceBalanced(mid, w', sh, total, tasks, holders[root := None], t, root, mm);
      OthersKeptTrans(w, mid, w', tasks, tasks, tasks[t := tasks[t].(root := root, mm := mm)], t);
      held := Dropped(holders[root := None], tasks[t].root)[root := Some(t)];
    }

    // What execve did to the memory of a task: in between, at `mid`, there were both the old program and the new one.
    static ghost predicate Replaced(w: World, mid: World, w': World, sh: Sharing, before: TaskMem, after: TaskMem,
                                    call: Exec.Call, o: Exec.Outcome)
    {
      && after == before.(root := o.p.root, mm := o.p.mm) && after.root != 0
      && Exec.Prepared(w, mid, sh, before.root, call, o) && TreeGone(mid, w', before.root)
    }

    /** Execve, as far as memory goes: on failure nothing changed; on success the task has the new program, and
        only what the old one had is given back. */
    method Execve(t: nat, call: Exec.Call) returns (rc: int, p: Program, ghost mid: World, ghost o: Exec.Outcome)
      requires Sound() && t in tasks && tasks[t].root != 0
      modifies Repr()
      ensures Sound() && t in tasks
      ensures rc != 0 ==> tasks == old(tasks) && Exec.BooksKept(old(m.Now()), m.Now())
      ensures tasks[t].root in m.trees && old(tasks)[t].root in old(m.trees)
      ensures rc != 0 ==> Exec.CallRefused(old(m.Now()), m.sh, m.pmm.totalFrames, old(tasks)[t].root, call, rc)
      ensures rc == 0 ==> Replaced(old(m.Now()), mid, m.Now(), m.sh, old(tasks)[t], tasks[t], call, o) && o.p == p
      ensures OthersKept(old(m.Now()), m.Now(), old(tasks), tasks, t)
    {
      ghost var w := m.Now();
      HasTree(t);
      rc, p, mid, o := Exec.Execve(m, tasks[t].root, call);
      if rc != 0 {
        KeptSound(w, t);
      } else {
        InstallProgram(w, mid, t, p, call, o);
      }
    }

    // The program built in `mid` takes the place of the one given up.
    method InstallProgram(ghost w: World, ghost mid: World, t: nat, p: Program, ghost call: Exec.Call,
                          ghost o: Exec.Outcome)
      requires m.Valid() && SharingOk(m.sh) && AllHeld(holders) && t in tasks && tasks[t].root != 0
      requires WorldOk(w, m.sh, m.pmm.totalFrames) && WorldOk(mid, m.sh, m.pmm.totalFrames)
      requires Balanced(w, m.sh, tasks, holders)
      requires Exec.Prepared(w, mid, m.sh, tasks[t].root, call, o) && o.p == p && TreeGone(mid, m.Now(), tasks[t].root)
      modifies this
      ensures Sound() && t in tasks && Replaced(w, mid, m.Now(), m.sh, old(tasks)[t], tasks[t], call, o)
      ensures OthersKept(w, m.Now(), old(tasks), tasks, t)
    {
      OutcomeFits(w, mid, m.sh, m.pmm.totalFrames, tasks[t].root, call, o);
      TakeOver(w, mid, t, p.root, p.mm);
    }

    lemma KeptSound(w: World, t: nat)
      requires m.Valid() && SharingOk(m.sh) && AllHeld(holders) && Exec.BooksKept(w, m.Now())
      requires WorldOk(w, m.sh, m.pmm.totalFrames) && Balanced(w, m.sh, tasks, holders)
      ensures Sound() && OthersKept(w, m.Now(), tasks, tasks, t)
    {
      KeptBalanced(w, m.Now(), m.sh, m.pmm.totalFrames, tasks, holders);
    }

    method TakeOver(ghost w: World, ghost mid: World, t: nat, root: nat, mm: Mm)
      requires m.Valid() && SharingOk(m.sh) && AllHeld(holders) && t in tasks && tasks[t].root != 0
      requires WorldOk(w, m.sh, m.pmm.totalFrames) && WorldOk(mid, m.sh, m.pmm.totalFrames)
      requires Balanced(w, m.sh, tasks, holders)
      requires Fits(w, mid, m.sh, root, mm) && TreeGone(mid, m.Now(), tasks[t].root)
      modifies this
      ensures Sound() && tasks == old(tasks)[t := old(tasks)[t].(root := root, mm := mm)]
      ensures OthersKept(w, m.Now(), old(tasks), tasks, t)
    {
      holders := ExecBalanced(w, mid, m.Now(), m.sh, m.pmm.totalFrames, tasks, holders, t, root, mm);
      tasks := tasks[t := tasks[t].(root := root, mm := mm)];
    }

    // Why no task can be made of a finished image.
    static ghost predicate NoTask(mid: World, total: nat, slot: bool, room: bool) {
      !slot || !room || NoStackRun(mid, total)
    }

    static ghost predicate SpawnFails(w: World, mid: World, sh: Sharing, total: nat, r: nat, call: Exec.Call,
                                      slot: bool, room: bool, rc: int)
      requires r in w.trees
    {
      (rc == -EAGAIN && NoTask(mid, total, slot, room)) || Exec.CallRefused(w, sh, total, r, call, rc)
    }

    /** Spawn, as far as memory goes: `slot` says whether the task table has room, `room` whether the kernel heap
        has room for the record of the new task. */
    method Spawn(parent: nat, child: nat, call: Exec.Call, slot: bool, room: bool)
      returns (rc: int, p: Program, ghost mid: World, ghost o: Exec.Outcome)
      requires Sound() && parent in tasks && tasks[parent].root != 0 && child !in tasks
      modifies Repr()
      ensures Sound() && (rc == 0 <==> child in tasks) && rc <= 0 && (!slot ==> rc != 0)
      ensures rc != 0 ==> m.owner == old(m.owner) && m.trees == old(m.trees)
      ensures old(tasks)[parent].root in old(m.trees)
      ensures rc != 0 ==>
        SpawnFails(old(m.Now()), mid, m.sh, m.pmm.totalFrames, old(tasks)[parent].root, call, slot, room, rc)
      ensures rc == 0 ==> IsNewProgram(mid, m.Now(), p, tasks, child) && o.p == p
      ensures rc == 0 ==> Exec.Prepared(old(m.Now()), mid, m.sh, old(tasks)[parent].root, call, o)
      ensures OthersKept(old(m.Now()), m.Now(), old(tasks), tasks, child)
    {
      ghost var w := m.Now();
      HasTree(parent);
      rc, p, o := Exec.Prepare(m, tasks[parent].root, call);
      mid := m.Now();
      if rc != 0 {
        KeptSound(w, child);
        return;
      }
      OutcomeFits(w, mid, m.sh, m.pmm.totalFrames, tasks[parent].root, call, o);
      rc := TaskFromImage(w, child, p, slot, room);
    }

    // Task t has just the address space and the memory map of the program that was built in `mid`, and a kernel stack.
    static ghost predicate IsNewProgram(mid: World, w': World, p: Program, tasks: map<nat, TaskMem>, t: nat) {
      && t in tasks && tasks[t] == TaskMem(p.root, p.mm, tasks[t].stack) && p.root != 0
      && w'.mem == mid.mem && w'.trees == mid.trees
    }

    /** task_create: the first task, whose program the kernel builds from a file of its own with stack pages and
        arguments of its choice; no other task need exist. */
    method TaskCreate(t: nat, data: seq<byte>, argv: seq<Arg>, pages: int, nxOn: bool, scratch: bool, slot: bool,
                      room: bool)
      returns (rc: int, p: Program, ghost mid: World, ghost top: seq<byte>)
      requires Sound() && t !in tasks
      modifies Repr()
      ensures Sound() && (rc == 0 <==> t in tasks) && (!slot ==> rc != 0)
      ensures rc == -Elf.ENOEXEC <==> !Elf.ElfOk(data)
      ensures rc != 0 ==> m.owner == old(m.owner) && m.trees == old(m.trees)
      ensures rc != 0 && Elf.ElfOk(data) ==>
        || (rc == -EAGAIN && NoTask(mid, m.pmm.totalFrames, slot, room))
        || FillFails(old(m.Now()), m.pmm.totalFrames, rc, argv, scratch,
                     1 + FramesToFill(m.sh, Elf.Segments(data), pages))
      ensures rc == 0 ==> IsNewProgram(mid, m.Now(), p, tasks, t)
      ensures rc == 0 ==> Built(old(m.Now()), mid, m.sh, LoadedImage(data, nxOn), argv, StackPages(pages), p, top)
      ensures OthersKept(old(m.Now()), m.Now(), old(tasks), tasks, t)
    {
      ghost var w := m.Now();
      rc, p, top := ImageBuild(m, data, argv, pages, nxOn, scratch);
      mid := m.Now();
      if rc != 0 {
        KeptSound(w, t);
        return;
      }
      ProgramFits(w, mid, m.sh, m.pmm.totalFrames, data, nxOn, argv, StackPages(pages), p, top);
      rc := TaskFromImage(w, t, p, slot, room);
    }

    // Makes a task of a finished image, or frees the image.
    method TaskFromImage(ghost w: World, child: nat, p: Program, slot: bool, room: bool) returns (rc: int)
      requires m.Valid() && SharingOk(m.sh) && AllHeld(holders) && child !in tasks
      requires WorldOk(w, m.sh, m.pmm.totalFrames) && Balanced(w, m.sh, tasks, holders)
      requires Fits(w, m.Now(), m.sh, p.root, p.mm)
      modifies Repr()
      ensures Sound() && (rc == 0 <==> child in tasks) && rc <= 0 && (!slot ==> rc != 0)
      ensures rc != 0 ==> rc == -EAGAIN && NoTask(old(m.Now()), m.pmm.totalFrames, slot, room)
      ensures rc != 0 ==> m.owner == w.owner && m.trees == w.trees
      ensures rc == 0 ==> tasks[child] == TaskMem(p.root, p.mm, tasks[child].stack)
      ensures rc == 0 ==> m.mem == old(m.mem) && m.trees == old(m.trees)
      ensures OthersKept(w, m.Now(), old(tasks), tasks, child)
    {
      HoldImage(w, child, p.root);
      var ok := false;
      if slot {
        ok := AllocForImage(w, child, p, room);
      }
      if ok {
        GiveImage(w, old(tasks), child, p);
        return 0;
      }
      FreeImage(w, child, p.root);
      return -EAGAIN;
    }

    method GiveImage(ghost w: World, ghost tasks0: map<nat, TaskMem>, child: nat, p: Program)
      requires Valid() && AllHeldBut(holders, p.root)
      requires OthersKept(w, m.Now(), tasks0, tasks, child)
      requires child in tasks && tasks[child] == TaskMem(0, EMPTY_MM, tasks[child].stack)
      requires p.root in m.trees && SpaceOk(m.Now(), m.sh, p.root, p.mm)
      modifies this
      ensures Sound() && child in tasks && tasks[child] == TaskMem(p.root, p.mm, tasks[child].stack)
      ensures OthersKept(w, m.Now(), tasks0, tasks, child)
    {
      Attach(child, p.root, p.mm);
    }

    static ghost predicate AllHeldBut(holders: Holders, root: nat) {
      root in holders && holders[root] == None && forall r :: r in holders && r != root ==> holders[r].Some?
    }

    // The tree of a finished image is in the books, without a task.
    method HoldImage(ghost w: World, ghost child: nat, root: nat)
      requires m.Valid() && SharingOk(m.sh) && AllHeld(holders) && NewTree(w, m.Now(), root) && root != 0
      requires WorldOk(w, m.sh, m.pmm.totalFrames) && Balanced(w, m.sh, tasks, holders)
      modifies this`holders
      ensures Valid() && AllHeldBut(holders, root) && OthersKept(w, m.Now(), tasks, tasks, child)
    {
      NewTreeBalanced(w, m.Now(), m.sh, m.pmm.totalFrames, tasks, holders, root);
      holders := holders[root := None];
      AllKeptOthersKept(w, m.Now(), tasks, tasks, child);
    }

    // A task that can take over the image; without one, all is as before.
    method AllocForImage(ghost w: World, child: nat, p: Program, room: bool) returns (ok: bool)
      requires Valid() && child !in tasks && OthersKept(w, m.Now(), tasks, tasks, child)
      requires Fits(w, m.Now(), m.sh, p.root, p.mm)
      modifies Repr()
      ensures Valid() && m.mem == old(m.mem) && m.trees == old(m.trees) && holders == old(holders)
      ensures !ok ==> tasks == old(tasks) && m.owner == old(m.owner)
      ensures !ok ==> !room || NoStackRun(old(m.Now()), m.pmm.totalFrames)
      ensures ok ==> child in tasks && tasks[child] == TaskMem(0, EMPTY_MM, tasks[child].stack)
      ensures ok ==> SpaceOk(m.Now(), m.sh, p.root, p.mm)
      ensures OthersKept(w, m.Now(), old(tasks), tasks, child)
    {
      ghost var w1 := m.Now();
      ok := AllocTask(child, room);
      OthersKeptTrans(w, w1, m.Now(), old(tasks), old(tasks), tasks, child);
      SpaceSame(w1, m.Now(), m.sh, p.root, p.mm);
    }

    method FreeImage(ghost w: World, ghost child: nat, root: nat)
      requires Valid() && child !in tasks && AllHeldBut(holders, root)
      requires WorldOk(w, m.sh, m.pmm.totalFrames) && NewTree(w, m.Now(), root)
      requires OthersKept(w, m.Now(), tasks, tasks, child)
      modifies Repr()
      ensures Sound() && tasks == old(tasks) && m.owner == w.owner && m.trees == w.trees
      ensures OthersKept(w, m.Now(), tasks, tasks, child)
    {
      ghost var w1 := m.Now();
      Teardown.Free(m, root);
      ForgetImage(w, w1, child, root);
    }

    ghost method ForgetImage(w: World, w1: World, child: nat, root: nat)
      requires m.Valid() && SharingOk(m.sh) && child !in tasks && AllHeldBut(holders, root)
      requires WorldOk(w, m.sh, m.pmm.totalFrames) && WorldOk(w1, m.sh, m.pmm.totalFrames)
      requires Balanced(w1, m.sh, tasks, holders)
      requires NewTree(w, w1, root) && TreeGone(w1, m.Now(), root) && OthersKept(w, w1, tasks, tasks, child)
      modifies this`holders
      ensures Sound() && m.owner == w.owner && m.trees == w.trees && OthersKept(w, m.Now(), tasks, tasks, child)
    {
      ImageGone(w, w1, m.Now(), m.sh, m.pmm.totalFrames, tasks, holders, child, root);
      holders := Dropped(holders, root);
    }

    static lemma ImageGone(w: World, w1: World, w2: World, sh: Sharing, total: nat, tasks: map<nat, TaskMem>,
                           holders: Holders,
                           child: nat, root: nat)
      requires WorldOk(w, sh, total) && WorldOk(w1, sh, total) && Balanced(w1, sh, tasks, holders)
      requires NewTree(w, w1, root)
      requires AllHeldBut(holders, root) && child !in tasks
      requires TreeGone(w1, w2, root) && OthersKept(w, w1, tasks, tasks, child)
      ensures Balanced(w2, sh, tasks, Dropped(holders, root)) && OthersKept(w, w2, tasks, tasks, child)
      ensures AllHeld(Dropped(holders, root))
      ensures w2.owner == w.owner && w2.trees == w.trees
    {
      NewTreeUndone(w, w1, w2, sh, total, root);
      PendingGone(w1, w2, sh, total, tasks, holders, root);
      AllKeptOthersKept(w1, w2, tasks, tasks, child);
      OthersKeptTrans(w, w1, w2, tasks, tasks, tasks, child);
    }
  }
}
