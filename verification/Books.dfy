/** Who owns the frames: every frame in use is the kernel's for good, or in the address space or the kernel stack
    of one task.  What one task does leaves the memory of the others alone. */
module Books {
  import opened PageEntry
  import opened PageTree
  import opened World
  import opened Growth
  import opened Layout
  import Sbrk
  import Exec
  import UserCopy

  const KERNEL_STACK_FRAMES: nat := 4

  // The memory of a task: its page table (0 while it has none), the bounds in it, and its kernel stack.
  datatype TaskMem = TaskMem(root: nat, mm: Mm, stack: nat)

  // Who holds an address space: a task, or nobody yet while its image is being built.
  type Holders = map<nat, Option<nat>>

  // The stack cannot grow into the heap, nor the heap into the stack.
  predicate StackApart(mm: Mm) {
    mm.brkStart + USER_HEAP_MAX <= mm.stackLimit
  }

  // The program ends so far below the signal trampoline that its heap cannot reach it.
  predicate HasRoom(mm: Mm) {
    mm.brkStart + USER_HEAP_MAX <= USER_SIGTRAMP_VIRT
  }

  // No shared frame is mapped at two pages of r.
  ghost predicate SharedOnce(w: World, sh: Sharing, r: nat)
    requires r in w.trees
  {
    forall u: nat, v: nat {:trigger Leaf(w.mem, w.trees[r], u), Leaf(w.mem, w.trees[r], v)} ::
      Leaf(w.mem, w.trees[r], u).Some? && Leaf(w.mem, w.trees[r], v).Some? && u != v
      && IsShared(sh, Leaf(w.mem, w.trees[r], u).value.frame) ==>
        Leaf(w.mem, w.trees[r], u).value.frame != Leaf(w.mem, w.trees[r], v).value.frame
  }

  // What is in order about the address space of a task.
  datatype Aspect = Heap | Apart | Single | Room

  ghost predicate InOrder(a: Aspect, w: World, sh: Sharing, r: nat, mm: Mm)
    requires r in w.trees
  {
    match a
    case Heap => Sbrk.HeapOk(w, sh, r, mm)
    case Apart => StackApart(mm)
    case Single => SharedOnce(w, sh, r)
    case Room => HasRoom(mm) ==> Sbrk.RoomToGrow(w, r, mm)
  }

  ghost predicate SpaceOk(w: World, sh: Sharing, r: nat, mm: Mm)
    requires r in w.trees
  {
    forall a {:trigger InOrder(a, w, sh, r, mm)} :: InOrder(a, w, sh, r, mm)
  }

  lemma SpaceMeans(w: World, sh: Sharing, r: nat, mm: Mm)
    requires r in w.trees && SpaceOk(w, sh, r, mm)
    ensures Sbrk.HeapOk(w, sh, r, mm) && StackApart(mm) && SharedOnce(w, sh, r)
    ensures HasRoom(mm) ==> Sbrk.RoomToGrow(w, r, mm)
  {
    assert InOrder(Heap, w, sh, r, mm) && InOrder(Apart, w, sh, r, mm);
    assert InOrder(Single, w, sh, r, mm) && InOrder(Room, w, sh, r, mm);
  }

  lemma SpaceIsOk(w: World, sh: Sharing, r: nat, mm: Mm)
    requires r in w.trees && Sbrk.HeapOk(w, sh, r, mm) && StackApart(mm) && SharedOnce(w, sh, r)
    requires HasRoom(mm) ==> Sbrk.RoomToGrow(w, r, mm)
    ensures SpaceOk(w, sh, r, mm)
  {
    forall a ensures InOrder(a, w, sh, r, mm) {
    }
  }

  // Private frames are never mapped twice, so that then no frame is.
  lemma SpaceUnaliased(w: World, sh: Sharing, total: nat, r: nat)
    requires WorldOk(w, sh, total) && r in w.trees && SharedOnce(w, sh, r)
    ensures UserCopy.Unaliased(w.mem, w.trees[r])
  {
    forall u: nat, v: nat | Leaf(w.mem, w.trees[r], u).Some? && Leaf(w.mem, w.trees[r], v).Some? && u != v
      ensures Leaf(w.mem, w.trees[r], u).value.frame != Leaf(w.mem, w.trees[r], v).value.frame
    {
      if !IsShared(sh, Leaf(w.mem, w.trees[r], u).value.frame) {
        UserCopy.PrivateUnaliased(w, sh, total, r, u, v);
      }
    }
  }

  // Every shared page of r' in w' was at the same place in r.
  ghost predicate SharedStay(w: World, r: nat, w': World, r': nat, sh: Sharing)
    requires r in w.trees && r' in w'.trees
  {
    forall v: nat {:trigger Leaf(w'.mem, w'.trees[r'], v)} ::
      Leaf(w'.mem, w'.trees[r'], v).Some? && IsShared(sh, Leaf(w'.mem, w'.trees[r'], v).value.frame) ==>
        Leaf(w.mem, w.trees[r], v).Some?
        && Leaf(w.mem, w.trees[r], v).value.frame == Leaf(w'.mem, w'.trees[r'], v).value.frame
  }

  lemma StillOnce(w: World, r: nat, w': World, r': nat, sh: Sharing)
    requires r in w.trees && r' in w'.trees && SharedOnce(w, sh, r) && SharedStay(w, r, w', r', sh)
    ensures SharedOnce(w', sh, r')
  {
  }

  ghost predicate TaskOk(w: World, sh: Sharing, tasks: map<nat, TaskMem>, holders: Holders, t: nat)
    requires t in tasks
  {
    var k := tasks[t];
    && (k.root != 0 ==> k.root in holders && holders[k.root] == Some(t))
    && (k.root != 0 ==> k.root in w.trees && SpaceOk(w, sh, k.root, k.mm))
    && (forall f :: k.stack <= f < k.stack + KERNEL_STACK_FRAMES ==> f in w.owner && w.owner[f] == KernelStack(t))
  }

  predicate HolderOk(tasks: map<nat, TaskMem>, holders: Holders, r: nat)
    requires r in holders
  {
    && r != 0
    && (holders[r].Some? ==> holders[r].value in tasks && tasks[holders[r].value].root == r)
  }

  // Frame f serves a purpose.
  ghost predicate FrameOk(w: World, tasks: map<nat, TaskMem>, f: nat)
    requires f in w.owner
  {
    match w.owner[f]
    case Permanent => true
    case Loose => false
    case KernelStack(t) => t in tasks && InRun(f, tasks[t].stack, KERNEL_STACK_FRAMES)
    case InTree(r, n) => r in w.trees
  }

  ghost predicate Balanced(w: World, sh: Sharing, tasks: map<nat, TaskMem>, holders: Holders) {
    && (forall r :: r in w.trees <==> r in holders)
    && (forall t {:trigger TaskOk(w, sh, tasks, holders, t)} :: t in tasks ==> TaskOk(w, sh, tasks, holders, t))
    && (forall r {:trigger HolderOk(tasks, holders, r)} :: r in holders ==> HolderOk(tasks, holders, r))
    && (forall f {:trigger FrameOk(w, tasks, f)} :: f in w.owner ==> FrameOk(w, tasks, f))
  }

  // No address space is without a task.
  predicate AllHeld(holders: Holders) {
    forall r :: r in holders ==> holders[r].Some?
  }

  // ---------------------------------------------------------------- isolation

  // The frames of the tree of q, their contents and their arrangement are what they were.
  ghost predicate Undisturbed(w: World, w': World, q: nat) {
    && q in w.trees && q in w'.trees && w'.trees[q] == w.trees[q]
    && (forall f :: f in w.owner && w.owner[f].InTree? && w.owner[f].root == q ==>
          && f in w'.owner && w'.owner[f] == w.owner[f]
          && f in w.mem && f in w'.mem && w'.mem[f] == w.mem[f])
  }

  // Every page of an undisturbed tree is where it was, with the bytes it had.
  lemma UndisturbedPages(w: World, w': World, sh: Sharing, total: nat, q: nat, v: nat)
    requires WorldOk(w, sh, total) && Undisturbed(w, w', q)
    ensures Leaf(w'.mem, w'.trees[q], v) == Leaf(w.mem, w.trees[q], v)
    ensures Leaf(w.mem, w.trees[q], v).Some? && !IsShared(sh, Leaf(w.mem, w.trees[q], v).value.frame) ==>
      var f := Leaf(w.mem, w.trees[q], v).value.frame;
      f in w.mem && f in w'.mem && w'.mem[f] == w.mem[f]
  {
    assert TreeAt(w, sh, q);
    if Over(v, 1) in w.trees[q] {
      assert Owns(w, q, Over(v, 1)) && NodeOk(w.mem, w.trees[q], sh, Over(v, 1));
    }
    if Leaf(w.mem, w.trees[q], v).Some? {
      LeafFrame(w, sh, total, q, v);
    }
  }

  lemma SpaceUndisturbed(w: World, w': World, sh: Sharing, total: nat, q: nat, mm: Mm)
    requires WorldOk(w, sh, total) && Undisturbed(w, w', q) && SpaceOk(w, sh, q, mm)
    ensures SpaceOk(w', sh, q, mm)
  {
    forall v: nat ensures Leaf(w'.mem, w'.trees[q], v) == Leaf(w.mem, w.trees[q], v) {
      UndisturbedPages(w, w', sh, total, q, v);
    }
    SpaceSame(w, w', sh, q, mm);
  }

  lemma SpaceSame(w: World, w': World, sh: Sharing, q: nat, mm: Mm)
    requires q in w.trees && q in w'.trees && SpaceOk(w, sh, q, mm)
    requires forall v: nat :: Leaf(w'.mem, w'.trees[q], v) == Leaf(w.mem, w.trees[q], v)
    ensures SpaceOk(w', sh, q, mm)
  {
    SpaceMeans(w, sh, q, mm);
    HeapSame(w, w', sh, q, mm);
    StillOnce(w, q, w', q, sh);
    SpaceIsOk(w', sh, q, mm);
  }

  lemma HeapSame(w: World, w': World, sh: Sharing, q: nat, mm: Mm)
    requires q in w.trees && q in w'.trees && Sbrk.HeapOk(w, sh, q, mm)
    requires forall v: nat :: Leaf(w'.mem, w'.trees[q], v) == Leaf(w.mem, w.trees[q], v)
    ensures Sbrk.HeapOk(w', sh, q, mm) && (Sbrk.RoomToGrow(w, q, mm) ==> Sbrk.RoomToGrow(w', q, mm))
  {
    forall v: nat | PageUp(mm.brk) <= v < Sbrk.HeapEnd(mm) ensures Vacant(w', sh, q, v) {
      assert Vacant(w, sh, q, v) by {
        assert Leaf(w'.mem, w'.trees[q], v) == Leaf(w.mem, w.trees[q], v);
      }
    }
  }

  // Task u keeps its address space and its kernel stack.
  ghost predicate TaskKept(w: World, w': World, k: TaskMem, u: nat) {
    && (k.root != 0 ==> Undisturbed(w, w', k.root))
    && (forall f :: f in w.owner && w.owner[f] == KernelStack(u) ==> f in w'.owner && w'.owner[f] == w.owner[f])
  }

  ghost predicate OthersKept(w: World, w': World, tasks: map<nat, TaskMem>, tasks': map<nat, TaskMem>, t: nat) {
    && (forall u :: u != t ==> (u in tasks <==> u in tasks') && (u in tasks ==> tasks'[u] == tasks[u]))
    && (forall u {:trigger TaskKept(w, w', tasks[u], u)} :: u in tasks && u != t ==> TaskKept(w, w', tasks[u], u))
  }

  // A step that concerns only task t keeps the books balanced.
  lemma StepBalanced(w: World, w': World, sh: Sharing, total: nat, tasks: map<nat, TaskMem>, tasks': map<nat, TaskMem>,
                     holders: Holders, holders': Holders, t: nat)
    requires WorldOk(w, sh, total) && Balanced(w, sh, tasks, holders) && OthersKept(w, w', tasks, tasks', t)
    requires forall r :: r in w'.trees <==> r in holders'
    requires forall r {:trigger HolderOk(tasks', holders', r)} :: r in holders' ==> HolderOk(tasks', holders', r)
    requires forall u :: u in tasks && u != t && tasks[u].root != 0 ==>
      tasks[u].root in holders' && holders'[tasks[u].root] == Some(u)
    requires t in tasks' ==> TaskOk(w', sh, tasks', holders', t)
    requires forall f {:trigger FrameOk(w', tasks', f)} :: f in w'.owner ==> FrameOk(w', tasks', f)
    ensures Balanced(w', sh, tasks', holders')
  {
    forall u | u in tasks' ensures TaskOk(w', sh, tasks', holders', u) {
      if u != t {
        OtherTaskOk(w, w', sh, total, tasks, tasks', holders, holders', t, u);
      }
    }
  }

  lemma OtherTaskOk(w: World, w': World, sh: Sharing, total: nat, tasks: map<nat, TaskMem>, tasks': map<nat, TaskMem>,
                    holders: Holders, holders': Holders, t: nat, u: nat)
    requires WorldOk(w, sh, total) && Balanced(w, sh, tasks, holders) && OthersKept(w, w', tasks, tasks', t)
    requires u in tasks && u != t
    requires tasks[u].root != 0 ==> tasks[u].root in holders' && holders'[tasks[u].root] == Some(u)
    ensures TaskOk(w', sh, tasks', holders', u)
  {
    assert TaskOk(w, sh, tasks, holders, u) && TaskKept(w, w', tasks[u], u);
    if tasks[u].root != 0 {
      SpaceUndisturbed(w, w', sh, total, tasks[u].root, tasks[u].mm);
    }
  }

  // ---------------------------------------------------------------- the steps

  // Task t's own tree changed, or was enlarged; nobody else's.
  lemma GrownKeepsOthers(w: World, w': World, sh: Sharing, total: nat, tasks: map<nat, TaskMem>, holders: Holders,
                         t: nat)
    requires WorldOk(w, sh, total) && Balanced(w, sh, tasks, holders) && t in tasks && tasks[t].root != 0
    requires tasks[t].root in w.trees && Grown(w, w', sh, tasks[t].root)
    ensures forall u :: u in tasks && u != t ==> TaskKept(w, w', tasks[u], u)
  {
    assert TaskOk(w, sh, tasks, holders, t);
    forall u | u in tasks && u != t ensures TaskKept(w, w', tasks[u], u) {
      assert TaskOk(w, sh, tasks, holders, u);
    }
  }

  lemma GrownFrames(w: World, w': World, sh: Sharing, tasks: map<nat, TaskMem>, tasks': map<nat, TaskMem>,
                    holders: Holders, r: nat)
    requires Balanced(w, sh, tasks, holders) && r in w.trees && Grown(w, w', sh, r)
    requires forall u :: u in tasks ==> u in tasks' && tasks'[u].stack == tasks[u].stack
    ensures forall f :: f in w'.owner ==> FrameOk(w', tasks', f)
  {
    forall f | f in w'.owner ensures FrameOk(w', tasks', f) {
      if f in w.owner {
        assert FrameOk(w, tasks, f);
      }
    }
  }

  lemma DroppedKeepsOthers(w: World, w': World, sh: Sharing, total: nat, tasks: map<nat, TaskMem>, holders: Holders,
                           t: nat,
                           lo: nat, hi: nat)
    requires WorldOk(w, sh, total) && Balanced(w, sh, tasks, holders) && t in tasks && tasks[t].root != 0
    requires Sbrk.FramesDropped(w, w', sh, tasks[t].root, lo, hi)
    ensures forall u :: u in tasks && u != t ==> TaskKept(w, w', tasks[u], u)
  {
    assert TaskOk(w, sh, tasks, holders, t);
    forall u | u in tasks && u != t ensures TaskKept(w, w', tasks[u], u) {
      assert TaskOk(w, sh, tasks, holders, u);
    }
  }

  lemma DroppedFrames(w: World, w': World, sh: Sharing, tasks: map<nat, TaskMem>, tasks': map<nat, TaskMem>,
                      holders: Holders,
                      r: nat, lo: nat, hi: nat)
    requires Balanced(w, sh, tasks, holders) && Sbrk.FramesDropped(w, w', sh, r, lo, hi)
    requires forall u :: u in tasks ==> u in tasks' && tasks'[u].stack == tasks[u].stack
    ensures forall f :: f in w'.owner ==> FrameOk(w', tasks', f)
  {
    forall f | f in w'.owner ensures FrameOk(w', tasks', f) {
      assert FrameOk(w, tasks, f);
    }
  }

  // The tree of task t became larger or smaller, and its heap is still in order.
  lemma OwnTreeChanged(w: World, w': World, sh: Sharing, total: nat, tasks: map<nat, TaskMem>, holders: Holders, t: nat,
                       mm: Mm)
    requires WorldOk(w, sh, total) && Balanced(w, sh, tasks, holders) && t in tasks && tasks[t].root != 0
    requires w'.trees.Keys == w.trees.Keys && tasks[t].root in w'.trees && SpaceOk(w', sh, tasks[t].root, mm)
    requires forall u :: u in tasks && u != t ==> TaskKept(w, w', tasks[u], u)
    requires forall f :: f in w.owner && w.owner[f] == KernelStack(t) ==> f in w'.owner && w'.owner[f] == w.owner[f]
    requires forall f :: f in w'.owner ==> FrameOk(w', tasks[t := tasks[t].(mm := mm)], f)
    ensures Balanced(w', sh, tasks[t := tasks[t].(mm := mm)], holders)
    ensures OthersKept(w, w', tasks, tasks[t := tasks[t].(mm := mm)], t)
  {
    var tasks' := tasks[t := tasks[t].(mm := mm)];
    forall r | r in holders ensures HolderOk(tasks', holders, r) {
      assert HolderOk(tasks, holders, r);
    }
    forall u | u in tasks ensures TaskOk(w, sh, tasks, holders, u) {
    }
    StepBalanced(w, w', sh, total, tasks, tasks', holders, holders, t);
  }

  // Task t wrote to its own memory.
  lemma WriteBalanced(w: World, w': World, sh: Sharing, total: nat, tasks: map<nat, TaskMem>, holders: Holders, t: nat,
                      va: nat, src: seq<byte>)
    requires WorldOk(w, sh, total) && Balanced(w, sh, tasks, holders) && t in tasks && tasks[t].root in w.trees
    requires w' == w.(mem := UserCopy.WriteBytes(w.mem, w.trees[tasks[t].root], va, src))
    ensures Balanced(w', sh, tasks, holders) && OthersKept(w, w', tasks, tasks, t)
  {
    var r, mm := tasks[t].root, tasks[t].mm;
    assert TaskOk(w, sh, tasks, holders, t) && HolderOk(tasks, holders, r);
    forall u | u in tasks && u != t ensures TaskKept(w, w', tasks[u], u) {
      WriteKeepsTask(w, w', sh, total, tasks, holders, t, va, src, u);
    }
    forall v: nat ensures Leaf(w'.mem, w'.trees[r], v) == Leaf(w.mem, w.trees[r], v) {
      UserCopy.WriteKeepsLeaf(w.mem, w.trees[r], va, src, v);
    }
    SpaceSame(w, w', sh, r, mm);
    forall f | f in w'.owner ensures FrameOk(w', tasks, f) {
      assert FrameOk(w, tasks, f);
    }
    assert tasks[t := tasks[t].(mm := mm)] == tasks;
    OwnTreeChanged(w, w', sh, total, tasks, holders, t, mm);
  }

  lemma WriteKeepsTask(w: World, w': World, sh: Sharing, total: nat, tasks: map<nat, TaskMem>, holders: Holders, t: nat,
                       va: nat, src: seq<byte>, u: nat)
    requires WorldOk(w, sh, total) && Balanced(w, sh, tasks, holders) && t in tasks && tasks[t].root in w.trees
    requires w' == w.(mem := UserCopy.WriteBytes(w.mem, w.trees[tasks[t].root], va, src))
    requires u in tasks && u != t && tasks[t].root != 0
    ensures TaskKept(w, w', tasks[u], u)
  {
    assert TaskOk(w, sh, tasks, holders, t) && TaskOk(w, sh, tasks, holders, u);
    forall f | f in w.owner && w.owner[f].InTree? && w.owner[f].root != tasks[t].root
      ensures f in w.mem && f in w'.mem && w'.mem[f] == w.mem[f]
    {
      UserCopy.WriteSparesOthers(w, sh, total, tasks[t].root, va, src, f);
    }
  }

  // ---------------------------------------------------------------- trees come and go

  // A new tree that no task holds yet.
  lemma NewTreeBalanced(w: World, w': World, sh: Sharing, total: nat, tasks: map<nat, TaskMem>, holders: Holders,
                        root: nat)
    requires WorldOk(w, sh, total) && Balanced(w, sh, tasks, holders) && NewTree(w, w', root) && root != 0
    ensures Balanced(w', sh, tasks, holders[root := None])
    ensures forall u :: u in tasks ==> TaskKept(w, w', tasks[u], u)
  {
    var holders' := holders[root := None];
    forall u | u in tasks ensures TaskKept(w, w', tasks[u], u) && TaskOk(w', sh, tasks, holders', u) {
      assert TaskOk(w, sh, tasks, holders, u);
      PreservedUndisturbed(w, w', sh, total, tasks[u].root);
      if tasks[u].root != 0 {
        SpaceUndisturbed(w, w', sh, total, tasks[u].root, tasks[u].mm);
      }
    }
    forall r | r in holders' ensures HolderOk(tasks, holders', r) {
      if r != root {
        assert HolderOk(tasks, holders, r);
      }
    }
    forall f | f in w'.owner ensures FrameOk(w', tasks, f) {
      if f in w.owner {
        assert FrameOk(w, tasks, f);
      }
    }
  }

  lemma PreservedUndisturbed(w: World, w': World, sh: Sharing, total: nat, q: nat)
    requires WorldOk(w, sh, total) && Preserved(w, w')
    ensures q in w.trees ==> Undisturbed(w, w', q)
  {
    forall f | f in w.owner ensures f in w.mem {
      assert f < total;
    }
  }

  // Contents may differ only in free frames.
  lemma KeptBalanced(w: World, w': World, sh: Sharing, total: nat, tasks: map<nat, TaskMem>, holders: Holders)
    requires WorldOk(w, sh, total) && Balanced(w, sh, tasks, holders) && Exec.BooksKept(w, w')
    ensures Balanced(w', sh, tasks, holders)
    ensures forall u :: u in tasks ==> TaskKept(w, w', tasks[u], u)
  {
    forall u | u in tasks ensures TaskKept(w, w', tasks[u], u) && TaskOk(w', sh, tasks, holders, u) {
      assert TaskOk(w, sh, tasks, holders, u);
      PreservedUndisturbed(w, w', sh, total, tasks[u].root);
      if tasks[u].root != 0 {
        SpaceUndisturbed(w, w', sh, total, tasks[u].root, tasks[u].mm);
      }
    }
    forall f | f in w'.owner ensures FrameOk(w', tasks, f) {
      assert FrameOk(w, tasks, f);
    }
  }

  // The tree of r goes, and with it what task t held, or nobody.
  lemma GoneUndisturbed(w: World, w': World, total: nat, sh: Sharing, r: nat, q: nat)
    requires WorldOk(w, sh, total) && TreeGone(w, w', r) && q in w.trees && q != r
    ensures Undisturbed(w, w', q)
  {
    forall f | f in w.owner && w.owner[f].InTree? && w.owner[f].root == q ensures f in w.mem {
      assert f < total;
    }
  }

  lemma GoneFrames(w: World, w': World, sh: Sharing, total: nat, tasks: map<nat, TaskMem>, tasks': map<nat, TaskMem>,
                   holders: Holders, r: nat)
    requires WorldOk(w, sh, total) && Balanced(w, sh, tasks, holders) && TreeGone(w, w', r)
    requires forall u :: u in tasks ==> u in tasks' && tasks'[u].stack == tasks[u].stack
    ensures forall f :: f in w'.owner ==> FrameOk(w', tasks', f)
  {
    forall f | f in w'.owner ensures FrameOk(w', tasks', f) {
      assert FrameOk(w, tasks, f) && Placed(w, f);
    }
  }

  lemma GoneTaskKept(w: World, w': World, sh: Sharing, total: nat, tasks: map<nat, TaskMem>, holders: Holders, r: nat,
                     u: nat)
    requires WorldOk(w, sh, total) && Balanced(w, sh, tasks, holders) && TreeGone(w, w', r)
    requires u in tasks && r in holders && holders[r] != Some(u)
    ensures TaskKept(w, w', tasks[u], u)
  {
    assert TaskOk(w, sh, tasks, holders, u);
    if tasks[u].root != 0 {
      GoneUndisturbed(w, w', total, sh, r, tasks[u].root);
    }
  }

  // Without the entry for r.
  ghost function Dropped(holders: Holders, r: nat): Holders {
    map q | q in holders && q != r :: holders[q]
  }
}
