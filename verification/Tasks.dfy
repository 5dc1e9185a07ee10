/** The tasks of the kernel: making, ending and reaping them, waiting, signals and scheduling.

    Everything between two calls of sched happens with interrupts off, so each method here is one step of the
    system; waitpid is cut where it calls sched. */
module Tasks {
  import opened IntrusiveList
  import opened RunQueue
  import opened TaskTable
  import opened Family
  import opened TaskStates
  import opened KernelState
  import opened TaskRecords
  import OpenFiles

  const SIGKILL: nat := 1
  const SIGTERM: nat := 2
  const EPERM: int := 1
  const EAGAIN: int := 11
  const ENOMEM: int := 12

  // What a step of waitpid comes to; the first two are -ECHILD and -EINTR.
  datatype WaitResult = NoChild | Interrupted | Exited(child: Ptr, code: int) | Waiting

  class Kernel {
    const first: Ptr  // the kernel task
    const links: ListHeads
    const files: OpenFiles.FileTables
    var current: Ptr
    var slots: seq<Ptr>
    var next: map<Ptr, Ptr>
    var parent: map<Ptr, Ptr>
    var state: map<Ptr, State>
    var pid: map<Ptr, nat>
    var pending: map<Ptr, nat>
    var handler: map<Ptr, nat>
    var exitCode: map<Ptr, int>
    var nextPid: nat
    ghost var ring: Ring
    ghost var lists: Lists
    ghost var turns: nat  // how often sched has been called
    var awaited: map<Ptr, Ptr>  // what a task inside waitpid keeps on its kernel stack: the child

    ghost function Repr(): set<object> {
      {this, links, files}
    }

    /** The kernel's whole state as a value. */
    ghost function Snap(): Cols
      reads this
    {
      Cols(current, slots, next, parent, state, pid, pending, handler, exitCode, nextPid, ring, lists, awaited, turns)
    }

    // The records of all tasks.
    ghost function Records(): Records
      reads this
    {
      RecordsOf(Snap())
    }

    ghost predicate Valid()
      reads this, links, files
    {
      KernelOk(Snap(), links.heads, files.tables, first) && files.Valid()
    }

    /** Between two steps just one task is running, the current one. */
    ghost predicate Runs()
      reads this
    {
      current in state && state[current] == Running
    }

    lemma SeenIsOk()
      requires Valid()
      ensures ViewOk(Seen(Snap()))
    {
      SeenOk(Snap(), links.heads, files.tables, first);
    }

    constructor (first: Ptr)
      requires first != 0
      ensures Valid() && Runs() && current == this.first == first && ring == [first] && next == map[first := first]
      ensures fresh(links) && fresh(files)
    {
      this.first := first;
      var l := new ListHeads();
      l.InitListHead(ChildrenOf(first));
      l.InitListHead(SiblingOf(first));
      var f := new OpenFiles.FileTables();
      f.NewTable(first);
      links := l;
      files := f;
      current := first;
      slots := [first] + Zeros(MAX_TASKS - 1);
      next := map[first := first];
      parent := map[first := first];
      state := map[first := Running];
      pid := map[first := 0];
      pending := map[first := 0];
      handler := map[first := 0];
      exitCode := map[first := 0];
      nextPid := 1;
      turns := 0;
      ring := [first];
      lists := map[first := [ChildrenOf(first)]];
      awaited := map[];
      new;
      assert Joined(links.heads, [ChildrenOf(first)], 0);
      FirstTaskOk(Snap(), links.heads, files.tables, first);
    }

    static function Zeros(n: nat): (r: seq<Ptr>)
      ensures |r| == n && forall i :: 0 <= i < n ==> r[i] == 0
    {
      if n == 0 then [] else Zeros(n - 1) + [0]
    }

    static lemma FirstTaskOk(c: Cols, heads: Memory, tables: Tables, first: Ptr)
      requires first != 0 && c.current == first && c.slots == [first] + Zeros(MAX_TASKS - 1) && c.nextPid == 1
      requires c.next == map[first := first] && c.parent == map[first := first] && c.state == map[first := Running]
      requires c.ring == [first] && c.lists == map[first := [ChildrenOf(first)]] && c.awaited == map[]
      requires c.pending == map[first := 0] && c.pid == map[first := 0] && c.handler.Keys == {first}
      requires c.exitCode.Keys == {first}
      requires IsList(heads, [ChildrenOf(first)]) && tables.Keys == {first}
      ensures KernelOk(c, heads, tables, first)
    {
      FirstRingOk(c, first);
      assert ListOk(heads, c.lists, c.parent, first) && Listed(c.lists, c.parent, first, first);
      assert StateOk(StatusOf(c), c.lists, first, c.current, first);
      forall t, u ensures PidApart(c.pid, t, u) {
      }
      Fold(c, heads, tables, first);
    }

    static lemma FirstRingOk(c: Cols, first: Ptr)
      requires first != 0 && c.slots == [first] + Zeros(MAX_TASKS - 1) && c.next == map[first := first]
      requires c.ring == [first]
      ensures RingPart(c, first)
    {
      assert Chained(c.next, c.ring, 0) && Apart(c.ring, 0, 0) && c.slots[0] == first;
      OneTaken(c.slots, MAX_TASKS);
    }

    static lemma {:induction false} OneTaken(slots: seq<Ptr>, n: nat)
      requires 0 < n <= |slots| && slots[0] != 0 && forall i :: 0 < i < n ==> slots[i] == 0
      ensures Taken(slots, n) == 1
    {
      if n > 1 {
        OneTaken(slots, n - 1);
      } else {
        assert Taken(slots, 0) == 0;
      }
    }

    // ---------------------------------------------------------------- looking tasks up

    /** The first free slot, or -1. */
    method FindFreeSlot() returns (slot: int)
      requires |slots| == MAX_TASKS
      ensures slot == -1 <==> forall i :: 0 <= i < MAX_TASKS ==> slots[i] != 0
      ensures slot != -1 ==> 0 <= slot < MAX_TASKS && slots[slot] == 0 && forall i :: 0 <= i < slot ==> slots[i] != 0
    {
      for i := 0 to MAX_TASKS
        invariant forall j :: 0 <= j < i ==> slots[j] != 0
      {
        if slots[i] == 0 {
          return i;
        }
      }
      slot := -1;
    }

    method FindInArray(t: Ptr) returns (slot: nat)
      requires |slots| == MAX_TASKS && t in slots
      ensures slot < MAX_TASKS && slots[slot] == t
    {
      slot := 0;
      while slots[slot] != t
        invariant slot < MAX_TASKS && forall j :: 0 <= j < slot ==> slots[j] != t
        decreases MAX_TASKS - slot
      {
        slot := slot + 1;
      }
    }

    /** The task with this pid; NULL when there is none. */
    method FindByPid(p: int) returns (t: Ptr)
      requires Valid()
      ensures t != 0 ==> t in next && t in pid && pid[t] == p
      ensures t == 0 ==> forall u :: u in next ==> u in pid && pid[u] != p
    {
      assert PartOk(Places, Snap(), links.heads, files.tables, first);
      for i := 0 to MAX_TASKS
        invariant forall j {:trigger slots[j]} :: 0 <= j < i && slots[j] != 0 ==> slots[j] in next && pid[slots[j]] != p
      {
        if slots[i] != 0 {
          assert slots[i] in ring;
          if pid[slots[i]] == p {
            return slots[i];
          }
        }
      }
      t := 0;
      forall u | u in next ensures pid[u] != p {
        assert u in slots && u in ring;
        var j :| 0 <= j < |slots| && slots[j] == u;
      }
    }

    /** Pids tell tasks apart. */
    lemma PidIsUnique(t: Ptr, u: Ptr)
      requires Valid() && t in pid && u in pid && pid[t] == pid[u]
      ensures t == u
    {
      Unfold(Snap(), links.heads, files.tables, first);
      assert PidApart(pid, t, u);
    }

    ghost predicate LinkedInside(h: Head)
      reads this, links
    {
      && h in links.heads
      && !links.heads[h].next.Null? && links.heads[h].next.task in next
      && !links.heads[h].prev.Null? && links.heads[h].prev.task in next
    }

    /** No pointer leads out of the tasks there are: not `next`, not `parent`, no slot, no link of a child list. */
    lemma NoDanglingPointer(t: Ptr, h: Head)
      requires Valid() && t in next
      ensures next[t] in next && t in parent && parent[t] in next && |slots| == MAX_TASKS
      ensures forall i :: 0 <= i < MAX_TASKS && slots[i] != 0 ==> slots[i] in next
      ensures t in lists && (h in lists[t] ==> LinkedInside(h))
      ensures t in awaited ==> awaited[t] in next
    {
      NextIsThere(t);
      FamilyIsThere(t, h);
      if t in awaited {
        assert PartOk(Lives, Snap(), links.heads, files.tables, first);
        assert StateOk(StatusOf(Snap()), lists, first, current, t);
      }
    }

    lemma NextIsThere(t: Ptr)
      requires Valid() && t in next
      ensures next[t] in next && |slots| == MAX_TASKS
      ensures forall i :: 0 <= i < MAX_TASKS && slots[i] != 0 ==> slots[i] in next
    {
      assert PartOk(Places, Snap(), links.heads, files.tables, first);
      var i :| 0 <= i < |ring| && ring[i] == t;
      assert Chained(next, ring, i);
    }

    lemma FamilyIsThere(t: Ptr, h: Head)
      requires Valid() && t in next
      ensures t in parent && parent[t] in next && t in lists && (h in lists[t] ==> LinkedInside(h))
    {
      assert PartOk(Places, Snap(), links.heads, files.tables, first);
      assert PartOk(Families, Snap(), links.heads, files.tables, first);
      assert Listed(lists, parent, first, t);
      if h in lists[t] {
        LinksStayInside(links.heads, lists, parent, first, t, h);
      }
    }

    // ---------------------------------------------------------------- a task comes

    // The zeroed record, the fields that fork and spawn set, and the links: the child becomes the last child of its
    // parent, follows the kernel task in the ring, and takes the first free slot.
    method Admit(p: Ptr, child: Ptr, sigterm: nat, ghost slot: nat)
      requires Valid() && p in next && p in state && state[p] != Zombie && child !in next && child != 0
      requires IsFirstFree(slot)
      modifies Repr()
      ensures Valid() && old(CanAdmit(p, slot)) && Snap() == old(Admitted(Snap(), p, child, sigterm, slot))
      ensures Records() == old(Records())[
        child := Task(Ready, parent := p, pid := old(nextPid), pending := 0, handler := sigterm, exitCode := 0)]
      ensures files.tables == old(files.tables)[child := old(files.tables)[p]]
      ensures OtherStep(old(Seen(Snap())), Seen(Snap()))
    {
      ghost var c, heads, tables := Snap(), links.heads, files.tables;
      SeenIsOk();
      AdmitFacts(p, child);
      AdmittedRecords(c, p, child, sigterm, slot);
      files.Adopt(child, p);
      LinkSibling(c, heads, p, child);
      AdmittedOk(c, heads, links.heads, tables, first, p, child, sigterm, slot);
      SetFields(c, p, child, sigterm, slot);
      SeenIsOk();
      AdmittedIsOther(c, Snap(), p, child, sigterm, slot);
    }

    ghost predicate IsFirstFree(slot: nat)
      reads this
    {
      |slots| == MAX_TASKS && slot < MAX_TASKS && slots[slot] == 0 && forall i :: 0 <= i < slot ==> slots[i] != 0
    }

    ghost predicate CanAdmit(p: Ptr, slot: nat)
      reads this, files
    {
      slot < |slots| && |ring| > 0 && ring[0] in next && p in lists && p in files.tables
    }

    lemma AdmitFacts(p: Ptr, child: Ptr)
      requires Valid() && p in next && child !in next
      ensures |ring| > 0 && ring[0] == first && first in next && p in lists && p in files.tables && child !in ring
      ensures FamilyOk(links.heads, lists, parent, first) && child !in parent && child !in files.tables
    {
      Unfold(Snap(), links.heads, files.tables, first);
      KernelState.FirstIsThere(Snap(), first);
    }

    method LinkSibling(ghost c: Cols, ghost heads: Memory, p: Ptr, child: Ptr)
      requires FamilyOk(heads, c.lists, c.parent, first) && p in c.lists && child !in c.parent && links.heads == heads
      modifies links
      ensures IsList(links.heads, c.lists[p] + [SiblingOf(child)]) && IsList(links.heads, [ChildrenOf(child)])
      ensures forall h :: h in heads && h !in c.lists[p] && h != SiblingOf(child) && h != ChildrenOf(child) ==>
        h in links.heads && links.heads[h] == heads[h]
    {
      links.InitListHead(ChildrenOf(child));
      links.InitListHead(SiblingOf(child));
      KernelState.FreshHeads(c, heads, links.heads, first, p, child);
      links.ListAddTail(SiblingOf(child), ChildrenOf(p), c.lists[p]);
      assert Joined(links.heads, [ChildrenOf(child)], 0);
    }

    method SetFields(ghost c: Cols, p: Ptr, child: Ptr, sigterm: nat, ghost slot: nat)
      requires c == Snap() && |ring| > 0 && ring[0] == first && first in next && p in lists && child !in next
      requires IsFirstFree(slot)
      modifies this
      ensures Snap() == Admitted(c, p, child, sigterm, slot)
    {
      FillRecord(p, child, sigterm);
      LinkRecord(child, slot);
      state := state[child := Ready];
      ring := Inserted(ring, child);
      lists := lists[p := lists[p] + [SiblingOf(child)]][child := [ChildrenOf(child)]];
    }

    method FillRecord(p: Ptr, child: Ptr, sigterm: nat)
      modifies this`handler, this`pending, this`exitCode, this`pid, this`nextPid, this`parent
      ensures Snap() == old(Snap()).(
        handler := old(handler)[child := sigterm], pending := old(pending)[child := 0],
        exitCode := old(exitCode)[child := 0], pid := old(pid)[child := old(nextPid)],
        nextPid := old(nextPid) + 1, parent := old(parent)[child := p])
    {
      handler := handler[child := sigterm];
      pending := pending[child := 0];
      exitCode := exitCode[child := 0];
      pid := pid[child := nextPid];
      nextPid := nextPid + 1;
      parent := parent[child := p];
    }

    method LinkRecord(child: Ptr, ghost slot: nat)
      requires first in next && IsFirstFree(slot)
      modifies this`next, this`slots
      ensures Snap() == old(Snap()).(
        next := old(next)[child := old(next)[first]][first := child], slots := SetSlot(old(slots), slot, child))
    {
      next := next[child := next[first]];
      next := next[first := child];
      var free := FindFreeSlot();
      slots := SetSlot(slots, free, child);
    }

    // The child is a new task, made by p.
    ghost predicate IsNewTask(c: Cols, p: Ptr, child: Ptr, sigterm: nat)
      reads this
    {
      exists i: nat ::
        && i < |c.slots| && |c.ring| > 0 && c.ring[0] in c.next && p in c.lists
        && Snap() == Admitted(c, p, child, sigterm, i)
    }

    /** fork: `room` says whether memory for the task, its kernel stack and a copy of its address space was found. */
    method Fork(child: Ptr, room: bool) returns (result: int)
      requires Valid() && Runs() && child !in next && child != 0
      modifies Repr()
      ensures Valid() && Runs()
      ensures result == -EPERM <==> old(current) == first
      ensures result == -EPERM || NewTaskResult(result, room)
      ensures result == -EAGAIN ==> |old(slots)| == 32 && forall i :: 0 <= i < 32 ==> old(slots)[i] != 0
      ensures result == -ENOMEM ==> !room
      ensures result > 0 || result == -EPERM || result == -EAGAIN || result == -ENOMEM
      ensures result > 0 ==> old(current) in old(handler) && old(current) in old(files.tables)
      ensures result > 0 ==>
        IsNewTask(old(Snap()), old(current), child, old(handler)[old(current)]) && result == old(nextPid)
      ensures result > 0 ==>
        Records() == old(Records())[
          child := Task(Ready, parent := old(current), pid := result, pending := 0,
                        handler := old(handler)[old(current)], exitCode := 0)]
      ensures result > 0 ==> files.tables == old(files.tables)[child := old(files.tables)[old(current)]]
      ensures result <= 0 ==> Snap() == old(Snap()) && files.tables == old(files.tables)
      ensures OtherStep(old(Seen(Snap())), Seen(Snap()))
    {
      SeenIsOk();
      if current == first {
        return -EPERM;
      }
      CurrentIsKnown();
      result := NewTask(child, handler[current], room);
    }

    // Every task has a record.
    lemma TasksHaveRecords()
      requires Valid()
      ensures Records().Keys == next.Keys
    {
      AllRecorded(Snap(), links.heads, files.tables, first);
    }

    lemma CurrentIsKnown()
      requires Valid()
      ensures current in next && current in handler && current in state && current in files.tables && current in pending
      ensures |slots| == MAX_TASKS && nextPid > 0 && current != 0
    {
      Unfold(Snap(), links.heads, files.tables, first);
      KernelState.FirstIsThere(Snap(), first);
    }

    lemma AllHavePids()
      requires Valid()
      ensures forall t :: t in pid <==> t in next
      ensures forall t :: t in next ==> t in state
    {
      assert PartOk(Places, Snap(), links.heads, files.tables, first);
      assert PartOk(Lives, Snap(), links.heads, files.tables, first);
    }

    lemma FirstIsKnown()
      requires Valid()
      ensures first in next && first != 0 && 0 !in next
    {
      Unfold(Snap(), links.heads, files.tables, first);
      KernelState.FirstIsThere(Snap(), first);
    }

    /** What spawn does among the tasks, and fork after its own checks. */
    method NewTask(child: Ptr, sigterm: nat, room: bool) returns (result: int)
      requires Valid() && Runs() && child !in next && child != 0
      modifies Repr()
      ensures Valid() && Runs()
      ensures NewTaskResult(result, room)
      ensures result == -EAGAIN ==> |old(slots)| == 32 && forall i :: 0 <= i < 32 ==> old(slots)[i] != 0
      ensures result > 0 ==> old(current) in old(files.tables)
      ensures result > 0 ==> IsNewTask(old(Snap()), old(current), child, sigterm) && result == old(nextPid)
      ensures result > 0 ==>
        Records() == old(Records())[
          child := Task(Ready, parent := old(current), pid := result, pending := 0, handler := sigterm, exitCode := 0)]
      ensures result > 0 ==> files.tables == old(files.tables)[child := old(files.tables)[old(current)]]
      ensures result <= 0 ==> Snap() == old(Snap()) && files.tables == old(files.tables)
      ensures OtherStep(old(Seen(Snap())), Seen(Snap()))
    {
      CurrentIsKnown();
      result := NewChild(current, child, sigterm, room);
    }

    // A number above 0 is a pid; otherwise the table is full, or memory is short.
    ghost predicate NewTaskResult(result: int, room: bool)
      reads this
    {
      && (result == -EAGAIN ==> |ring| == MAX_TASKS && IsFull())
      && (result == -ENOMEM ==> !room)
      && (result > 0 || result == -EAGAIN || result == -ENOMEM)
    }

    // task_from_image: a slot must be free, and memory must be had.
    method NewChild(p: Ptr, child: Ptr, sigterm: nat, room: bool) returns (result: int)
      requires Valid() && Runs() && p in next && p in state && state[p] != Zombie && child !in next && child != 0
      modifies Repr()
      ensures Valid() && Runs()
      ensures NewTaskResult(result, room)
      ensures result == -EAGAIN ==> |old(slots)| == 32 && forall i :: 0 <= i < 32 ==> old(slots)[i] != 0
      ensures result > 0 ==> p in old(files.tables)
      ensures result > 0 ==> IsNewTask(old(Snap()), p, child, sigterm) && result == old(nextPid)
      ensures result > 0 ==>
        Records() == old(Records())[
          child := Task(Ready, parent := p, pid := result, pending := 0, handler := sigterm, exitCode := 0)]
      ensures result > 0 ==> files.tables == old(files.tables)[child := old(files.tables)[p]]
      ensures result <= 0 ==> Snap() == old(Snap()) && files.tables == old(files.tables)
      ensures OtherStep(old(Seen(Snap())), Seen(Snap()))
    {
      SeenIsOk();
      CurrentIsKnown();
      var slot := FindFreeSlot();
      if slot < 0 {
        TableIsFull();
        return -EAGAIN;
      }
      if !room {
        return -ENOMEM;
      }
      Admit(p, child, sigterm, slot);
      result := pid[child];
    }

    // Whose child task_create makes: the task with a pid, or the current one if there is none.
    ghost predicate IsParentFor(p: Ptr, parentPid: int)
      reads this
    {
      p in pid && (pid[p] == parentPid || (p == current && forall t :: t in next ==> t in pid && pid[t] != parentPid))
    }

    method ParentFor(parentPid: int) returns (p: Ptr)
      requires Valid() && Runs()
      ensures IsParentFor(p, parentPid) && p in next && p in state
      ensures pid[p] != parentPid ==> state[p] == Running
    {
      CurrentIsKnown();
      p := FindByPid(parentPid);
      if p == 0 {
        p := current;
      }
      Known(Snap(), links.heads, files.tables, first, p);
    }

    /** task_create, among the tasks.  The parent must not have ended; the one caller names the kernel task. */
    method TaskCreate(child: Ptr, parentPid: int, sigterm: nat, room: bool) returns (result: int, ghost p: Ptr)
      requires Valid() && Runs() && child !in next && child != 0
      requires forall t :: t in pid && pid[t] == parentPid && t in state ==> state[t] != Zombie
      modifies Repr()
      ensures Valid() && Runs()
      ensures NewTaskResult(result, room) && old(IsParentFor(p, parentPid))
      ensures result == -EAGAIN ==> |old(slots)| == 32 && forall i :: 0 <= i < 32 ==> old(slots)[i] != 0
      ensures result == -ENOMEM ==> !room
      ensures result > 0 || result == -EAGAIN || result == -ENOMEM
      ensures result > 0 ==> IsNewTask(old(Snap()), p, child, sigterm) && result == old(nextPid)
      ensures result > 0 ==>
        Records() == old(Records())[
          child := Task(Ready, parent := p, pid := result, pending := 0, handler := sigterm, exitCode := 0)]
      ensures result <= 0 ==> Snap() == old(Snap()) && files.tables == old(files.tables)
      ensures OtherStep(old(Seen(Snap())), Seen(Snap()))
    {
      var parent := ParentFor(parentPid);
      p := parent;
      result := NewChild(parent, child, sigterm, room);
    }

    ghost predicate IsFull()
      reads this
    {
      forall i :: 0 <= i < |slots| ==> slots[i] != 0
    }

    lemma TableIsFull()
      requires Valid() && |slots| == MAX_TASKS && forall i :: 0 <= i < MAX_TASKS ==> slots[i] != 0
      ensures |ring| == MAX_TASKS
    {
      Unfold(Snap(), links.heads, files.tables, first);
      AllTaken(slots, MAX_TASKS);
    }

    static lemma {:induction false} AllTaken(slots: seq<Ptr>, n: nat)
      requires n <= |slots| && forall i :: 0 <= i < n ==> slots[i] != 0
      ensures Taken(slots, n) == n
    {
      if n > 0 {
        AllTaken(slots, n - 1);
      }
    }

    // ---------------------------------------------------------------- a task ends

    // What ending leaves of t's other ties, before its children are handed on: it waits for nothing, and no signal
    // is pending.
    static lemma Untied(c: Cols, heads: Memory, tables: Tables, first: Ptr, t: Ptr) returns (d: Cols)
      requires KernelOk(c, heads, tables, first) && t in c.state && t in c.pending && c.state[t] != Zombie
      ensures KernelOk(d, heads, tables, first) && t in d.state && d.state[t] != Zombie && t !in d.awaited
      ensures d == c.(state := d.state, awaited := Drop(c.awaited, t), pending := c.pending[t := 0])
      ensures d.state == if c.state[t] == Blocked then c.state[t := Ready] else c.state
    {
      d := c;
      if c.state[t] == Blocked {
        WakeOk(c, heads, tables, first, t);
        d := c.(state := c.state[t := Ready]);
      }
      LeaveOk(d, heads, tables, first, t);
      d := d.(awaited := Drop(d.awaited, t));
      PendingOk(d, heads, tables, first, t, 0);
      d := d.(pending := d.pending[t := 0]);
    }

    // Hands the children of t, which is ending, to the kernel task, one by one.  `c` is the kernel's state but for
    // states and exit codes.
    method HandOn(ghost c: Cols, t: Ptr) returns (ghost d: Cols)
      requires KernelOk(c, links.heads, files.tables, first) && t in c.state && t in c.parent && t != first
      requires c.state[t] != Zombie && t !in c.awaited && parent == c.parent && lists == c.lists && t in c.lists
      modifies links, this`parent, this`lists
      ensures KernelOk(d, links.heads, files.tables, first) && d == c.(parent := parent, lists := lists)
      ensures t in lists && |lists[t]| == 1
      ensures parent.Keys == c.parent.Keys && c.parent[t] == parent[t]
      ensures forall u :: u in c.parent ==> u in parent && parent[u] == if c.parent[u] == t then first else c.parent[u]
    {
      d := c;
      var head := ChildrenOf(t);
      FamilyFacts(c, links.heads, files.tables, first, t);
      var node := links.heads[head].next;
      while node != head
        invariant KernelOk(d, links.heads, files.tables, first) && d == c.(parent := parent, lists := lists)
        invariant t in lists && |lists[t]| > 0 && (|lists[t]| > 1 ==> lists[t][1].SiblingOf?)
        invariant node == if |lists[t]| > 1 then lists[t][1] else head
        invariant HandedOnSoFar(c.parent, parent, first, t)
        decreases |lists[t]|
      {
        ghost var e := d;
        d := HandOnOne(e, t, node);
        FamilyFacts(d, links.heads, files.tables, first, t);
        node := links.heads[head].next;
      }
      AllHandedOn(c, d, links.heads, files.tables, first, t);
    }

    static ghost predicate HandedOnSoFar(parent0: map<Ptr, Ptr>, parent: map<Ptr, Ptr>, first: Ptr, t: Ptr) {
      && parent.Keys == parent0.Keys
      && forall u :: u in parent0 ==> parent[u] == parent0[u] || (parent0[u] == t && parent[u] == first)
    }

    // The first link in the child list of t, and who is whose parent at the top.
    static lemma FamilyFacts(c: Cols, heads: Memory, tables: Tables, first: Ptr, t: Ptr)
      requires KernelOk(c, heads, tables, first) && t in c.lists && t in c.parent && t != first
      ensures ChildrenOf(t) in heads && |c.lists[t]| > 0 && (|c.lists[t]| > 1 ==> c.lists[t][1].SiblingOf?)
      ensures heads[ChildrenOf(t)].next == if |c.lists[t]| > 1 then c.lists[t][1] else ChildrenOf(t)
      ensures first in c.parent && c.parent[first] == first && c.parent[t] != t
    {
      Unfold(c, heads, tables, first);
      FirstChild(c, heads, first, t);
      Parents(c, heads, first, t);
    }

    static lemma AllHandedOn(c: Cols, d: Cols, heads: Memory, tables: Tables, first: Ptr, t: Ptr)
      requires KernelOk(d, heads, tables, first) && t in d.lists && |d.lists[t]| == 1 && t != first && t in c.parent
      requires HandedOnSoFar(c.parent, d.parent, first, t) && first in c.parent && c.parent[first] == first
      requires c.parent[t] != t
      ensures forall u :: u in c.parent ==> d.parent[u] == if c.parent[u] == t then first else c.parent[u]
    {
      Unfold(d, heads, tables, first);
      forall u | u in c.parent ensures d.parent[u] == if c.parent[u] == t then first else c.parent[u] {
        if u != first {
          NoChildren(d, heads, first, t, u);
        }
      }
    }

    static lemma Parents(c: Cols, heads: Memory, first: Ptr, t: Ptr)
      requires FamilyOk(heads, c.lists, c.parent, first) && t in c.parent && t != first
      ensures first in c.parent && c.parent[first] == first && c.parent[t] != t && c.parent[t] in c.parent
    {
      assert Listed(c.lists, c.parent, first, t) && Listed(c.lists, c.parent, first, first);
    }

    method HandOnOne(ghost c: Cols, t: Ptr, node: Head) returns (ghost d: Cols)
      requires KernelOk(c, links.heads, files.tables, first) && t in c.state && t in c.parent && t != first
      requires c.state[t] != Zombie && t !in c.awaited
      requires parent == c.parent && lists == c.lists && t in lists && |lists[t]| > 1 && node == lists[t][1]
      modifies links, this`parent, this`lists
      ensures first in c.lists && node.SiblingOf? && d == Reparented(c, first, t)
      ensures KernelOk(d, links.heads, files.tables, first)
      ensures parent == d.parent && lists == d.lists
      ensures node.task in c.parent && c.parent[node.task] == t && parent == c.parent[node.task := first]
      ensures t in lists && |lists[t]| < |c.lists[t]|
    {
      ghost var heads := links.heads;
      HandOnFacts(c, heads, files.tables, first, t);
      links.ListDel(node, lists[t], 1);
      ghost var heads1 := links.heads;
      ReparentHalfway(c, heads, heads1, first, t);
      parent := parent[node.task := first];
      links.ListAddTail(node, ChildrenOf(first), lists[first]);
      ReparentedOk(c, heads, heads1, links.heads, files.tables, first, t);
      d := Reparented(c, first, t);
      lists := d.lists;
    }

    static lemma HandOnFacts(c: Cols, heads: Memory, tables: Tables, first: Ptr, t: Ptr)
      requires KernelOk(c, heads, tables, first) && t in c.lists && t in c.parent && t != first && |c.lists[t]| > 1
      ensures first in c.lists && FamilyOk(heads, c.lists, c.parent, first) && IsList(heads, c.lists[t])
      ensures c.lists[t][1].SiblingOf? && c.lists[t][1].task in c.parent && c.parent[c.lists[t][1].task] == t
      ensures c.lists[t][1].task != first && c.lists[t][1].task != t
    {
      Unfold(c, heads, tables, first);
      KernelState.FirstIsThere(c, first);
      FirstChild(c, heads, first, t);
    }

    // What task_terminate makes of the state of the kernel.
    static ghost predicate Terminated(c: Cols, d: Cols, first: Ptr, t: Ptr, code: int) {
      && t in c.parent && t in c.state && c.parent[t] in c.state && c.parent.Keys == d.parent.Keys
      && d == c.(state := d.state, exitCode := c.exitCode[t := code], pending := c.pending[t := 0],
                 awaited := Drop(c.awaited, t), parent := d.parent, lists := d.lists)
      && d.state == (if c.state[c.parent[t]] == Blocked then c.state[c.parent[t] := Ready] else c.state)[t := Zombie]
      && (forall u :: u in c.parent ==> d.parent[u] == if c.parent[u] == t then first else c.parent[u])
    }

    // The state of the kernel once t, whose children were handed on in d, has ended and its parent been woken.
    static ghost function Finished(c: Cols, d: Cols, t: Ptr, code: int): Cols
      requires t in c.state && t in d.parent && d.parent[t] in c.state
    {
      d.(state := Woken(c.state[t := Zombie], d.parent[t]), exitCode := c.exitCode[t := code])
    }

    static function Woken(state: map<Ptr, State>, p: Ptr): map<Ptr, State>
      requires p in state
    {
      if state[p] == Blocked then state[p := Ready] else state
    }

    // What Untied and HandOn have brought about.
    static ghost predicate AlmostEnded(c: Cols, d: Cols, first: Ptr, t: Ptr) {
      && t != first && t in c.state && c.state[t] != Zombie && t in c.parent && t in d.parent
      && c.parent[t] == d.parent[t] && c.parent.Keys == d.parent.Keys
      && d.state == (if c.state[t] == Blocked then c.state[t := Ready] else c.state)
      && d == c.(state := d.state, awaited := Drop(c.awaited, t), pending := c.pending[t := 0],
                 parent := d.parent, lists := d.lists)
      && (forall u :: u in c.parent ==> d.parent[u] == if c.parent[u] == t then first else c.parent[u])
    }

    // What Untied alone has brought about.
    static ghost predicate IsUntied(c: Cols, d: Cols, first: Ptr, t: Ptr) {
      && t != first && t in c.state && c.state[t] != Zombie && t in c.parent && t in d.lists && t !in d.awaited
      && d.state == (if c.state[t] == Blocked then c.state[t := Ready] else c.state)
      && d == c.(state := d.state, awaited := Drop(c.awaited, t), pending := c.pending[t := 0])
    }

    static lemma FinishedOk(c: Cols, d: Cols, heads: Memory, tables: Tables, first: Ptr, t: Ptr, code: int)
      requires KernelOk(d, heads, tables, first) && AlmostEnded(c, d, first, t) && t !in d.awaited
      requires t in d.lists && |d.lists[t]| == 1 && t in tables && OpenFiles.AllClosed(tables[t])
      ensures d.parent[t] in c.state
      ensures KernelOk(Finished(c, d, t, code), heads, tables, first)
      ensures Terminated(c, Finished(c, d, t, code), first, t, code)
    {
      EndedOk(d, heads, tables, first, t, code);
      FamilyFacts(d, heads, tables, first, t);
      assert Ended(StatusOf(d), t) == Woken(c.state[t := Zombie], d.parent[t]);
      assert Finished(c, d, t, code) == EndedTask(d, t, code);
    }

    /** Ends a task: its files are closed, its children get the kernel task as their parent, and its parent, if it
        waits, wakes up. */
    method TaskTerminate(t: Ptr, code: int)
      requires Valid() && (t == 0 || t in next)
      modifies Repr()
      ensures Valid()
      ensures t == 0 || t == first || old(t in state && state[t] == Zombie) ==>
        Snap() == old(Snap()) && files.tables == old(files.tables)
      ensures t != 0 && t != first && old(t in state && state[t] != Zombie) ==>
        Terminated(old(Snap()), Snap(), first, t, code) && t in files.tables && OpenFiles.AllClosed(files.tables[t])
      ensures OtherTables(old(files.tables), files.tables, t)
      ensures OtherStep(old(Seen(Snap())), Seen(Snap()))
    {
      SeenIsOk();
      if t == 0 || t == first {
        return;
      }
      Known(Snap(), links.heads, files.tables, first, t);
      if state[t] == Zombie {
        return;
      }
      EndTask(t, code);
    }

    method EndTask(t: Ptr, code: int)
      requires Valid() && t in next && t != first && t in state && state[t] != Zombie
      modifies Repr()
      ensures Valid() && Terminated(old(Snap()), Snap(), first, t, code)
      ensures t in files.tables && OpenFiles.AllClosed(files.tables[t])
      ensures OtherTables(old(files.tables), files.tables, t)
    {
      ghost var c := Snap();
      Known(c, links.heads, files.tables, first, t);
      ghost var d := Untied(c, links.heads, files.tables, first, t);
      MarkEnded(d, t, code);
      CloseFiles(d, t);
      CompleteEnd(c, d, t, code);
    }

    method MarkEnded(ghost d: Cols, t: Ptr, code: int)
      requires d == Snap().(state := d.state, pending := pending[t := 0], awaited := Drop(awaited, t))
      modifies this`exitCode, this`state, this`pending, this`awaited
      ensures Snap() == d.(state := old(state)[t := Zombie], exitCode := old(exitCode)[t := code])
    {
      exitCode := exitCode[t := code];
      state := state[t := Zombie];
      pending := pending[t := 0];
      awaited := Drop(awaited, t);
    }

    // Children and parent.
    method CompleteEnd(ghost c: Cols, ghost d: Cols, t: Ptr, ghost code: int)
      requires KernelOk(d, links.heads, files.tables, first) && files.Valid() && IsUntied(c, d, first, t)
      requires t in files.tables && OpenFiles.AllClosed(files.tables[t])
      requires Snap() == d.(state := c.state[t := Zombie], exitCode := c.exitCode[t := code])
      modifies links, this`parent, this`lists, this`state
      ensures Valid() && Terminated(c, Snap(), first, t, code)
    {
      ghost var e := HandOn(d, t);
      HandedOn(c, d, e, first, t);
      assert Snap() == e.(state := c.state[t := Zombie], exitCode := c.exitCode[t := code]);
      CompleteWake(c, e, t, code);
    }

    method CompleteWake(ghost c: Cols, ghost e: Cols, t: Ptr, ghost code: int)
      requires KernelOk(e, links.heads, files.tables, first) && files.Valid() && AlmostEnded(c, e, first, t)
      requires t !in e.awaited
      requires t in e.lists && |e.lists[t]| == 1 && t in files.tables && OpenFiles.AllClosed(files.tables[t])
      requires Snap() == e.(state := c.state[t := Zombie], exitCode := c.exitCode[t := code])
      modifies this`state
      ensures Valid() && Terminated(c, Snap(), first, t, code)
    {
      FinishedOk(c, e, links.heads, files.tables, first, t, code);
      WakeParent(t);
      assert Snap() == Finished(c, e, t, code);
    }

    static lemma HandedOn(c: Cols, d: Cols, e: Cols, first: Ptr, t: Ptr)
      requires IsUntied(c, d, first, t) && e == d.(parent := e.parent, lists := e.lists)
      requires t in d.parent && t in e.parent && e.parent.Keys == d.parent.Keys && d.parent[t] == e.parent[t]
      requires forall u :: u in d.parent ==>
        u in e.parent && e.parent[u] == if d.parent[u] == t then first else d.parent[u]
      ensures AlmostEnded(c, e, first, t)
    {
    }

    method WakeParent(t: Ptr)
      requires t in parent && parent[t] in state
      modifies this`state
      ensures parent[t] in old(state) && state == Woken(old(state), parent[t])
    {
      if state[parent[t]] == Blocked {
        state := state[parent[t] := Ready];
      }
    }

    method CloseFiles(ghost d: Cols, t: Ptr)
      requires KernelOk(d, links.heads, files.tables, first) && files.Valid() && t in files.tables
      modifies files
      ensures files.Valid() && KernelOk(d, links.heads, files.tables, first)
      ensures t in files.tables && OpenFiles.AllClosed(files.tables[t])
      ensures OtherTables(old(files.tables), files.tables, t)
    {
      ghost var tables := files.tables;
      files.CloseAll(t);
      ClosedOk(d, links.heads, tables, files.tables, first, t);
    }

    // ---------------------------------------------------------------- a task goes

    /** Takes a task out of the ring, walking it from the kernel task. */
    method UnlinkFromRunqueue(victim: Ptr, ghost k: nat)
      requires IsRing(next, ring) && ring[0] == first && 0 < k < |ring| && ring[k] == victim
      modifies this`next
      ensures victim in old(next) && next == old(next)[ring[k - 1] := old(next)[victim]]
    {
      assert Chained(next, ring, k) && Chained(next, ring, 0);
      var node := first;
      ghost var i: nat := 0;
      while next[node] != victim
        invariant i < k && node == ring[i] && Chained(next, ring, i)
        decreases k - i
      {
        assert i + 1 < k;
        node := next[node];
        i := i + 1;
        assert Chained(next, ring, i);
      }
      OnePosition(ring, i + 1, k);
      next := next[node := next[victim]];
    }

    // Where in the kernel's structures task t is.
    ghost predicate At(t: Ptr, k: nat, i: nat, j: nat)
      reads this
    {
      && 0 < k < |ring| && ring[k] == t && i < |slots| && slots[i] == t
      && t in next && t in parent && t in state && parent[t] in lists
      && 0 < j < |lists[parent[t]]| && lists[parent[t]][j] == SiblingOf(t)
    }

    lemma FindTask(t: Ptr) returns (k: nat, i: nat, j: nat)
      requires Valid() && t in next && t != first
      ensures At(t, k, i, j) && i < MAX_TASKS && |slots| == MAX_TASKS && i > 0
      ensures IsRing(next, ring) && ring[0] == first && ring[k - 1] in next && IsList(links.heads, lists[parent[t]])
      ensures SiblingOf(t) in links.heads && links.heads[SiblingOf(t)].next != Null
      ensures forall l :: 0 <= l < MAX_TASKS && slots[l] == t ==> l == i
      ensures t in files.tables
    {
      Unfold(Snap(), links.heads, files.tables, first);
      k :| k < |ring| && ring[k] == t;
      i :| i < |slots| && slots[i] == t;
      assert Chained(next, ring, k - 1);
      j := PlaceInList(Snap(), links.heads, first, t);
      LinksStayInside(links.heads, lists, parent, first, parent[t], SiblingOf(t));
      KernelState.FirstIsThere(Snap(), first);
      forall l: nat | l < MAX_TASKS && slots[l] == t ensures l == i {
        assert SlotApart(slots, l, i);
      }
    }

    // The record of a task is given back.
    method DropFields(t: Ptr)
      modifies this`next, this`parent, this`state, this`pid, this`pending, this`handler, this`exitCode
      ensures next == Drop(old(next), t) && parent == Drop(old(parent), t) && state == Drop(old(state), t)
      ensures pid == Drop(old(pid), t) && pending == Drop(old(pending), t)
      ensures handler == Drop(old(handler), t) && exitCode == Drop(old(exitCode), t)
    {
      next := Drop(next, t);
      parent := Drop(parent, t);
      state := Drop(state, t);
      pid := Drop(pid, t);
      pending := Drop(pending, t);
      handler := Drop(handler, t);
      exitCode := Drop(exitCode, t);
    }

    // Takes t out of the ring, the table and its parent's list.
    method UnlinkTask(t: Ptr, ghost k: nat, ghost i: nat, ghost j: nat)
      requires At(t, k, i, j) && |slots| == MAX_TASKS && 0 < i && IsRing(next, ring) && ring[0] == first
      requires IsList(links.heads, lists[parent[t]]) && SiblingOf(t) in links.heads
      requires links.heads[SiblingOf(t)].next != Null
      requires forall l :: 0 <= l < MAX_TASKS && slots[l] == t ==> l == i
      modifies this`next, this`slots, links
      ensures next == old(next)[ring[k - 1] := old(next)[t]] && slots == SetSlot(old(slots), i, 0)
      ensures IsList(links.heads, Without(lists[parent[t]], j)) && links.heads.Keys == old(links.heads).Keys
      ensures forall h :: h in links.heads && h !in lists[parent[t]] ==> links.heads[h] == old(links.heads)[h]
    {
      UnlinkFromRunqueue(t, k);
      var slot := FindInArray(t);
      if slot > 0 {
        slots := SetSlot(slots, slot, 0);
      }
      if links.heads[SiblingOf(t)].next != Null {
        links.ListDel(SiblingOf(t), lists[parent[t]], j);
      }
    }

    /** Gives back a zombie that nobody waits for any more: no trace of it is left. */
    method TaskReap(t: Ptr)
      requires Valid() && (t == 0 || t in next)
      requires t in parent && parent[t] in awaited ==> awaited[parent[t]] != t
      modifies Repr()
      ensures Valid()
      ensures t == 0 || t == old(current) || t == first || old(t in state && state[t] != Zombie) ==>
        Snap() == old(Snap()) && files.tables == old(files.tables)
      ensures t != 0 && t != old(current) && t != first && old(t in state && state[t] == Zombie) ==>
        IsReaped(old(Snap()), Snap(), t) && files.tables == Drop(old(files.tables), t)
      ensures OtherStep(old(Seen(Snap())), Seen(Snap()))
    {
      SeenIsOk();
      if t == 0 || t == current || t == first {
        return;
      }
      Known(Snap(), links.heads, files.tables, first, t);
      if state[t] != Zombie {
        return;
      }
      ReapZombie(t);
    }

    // The state of the kernel without t.
    static ghost predicate IsReaped(c: Cols, d: Cols, t: Ptr) {
      exists k: nat, i: nat, j: nat {:trigger KernelState.Reaped(c, k, i, j)} ::
        && 0 < k < |c.ring| && i < |c.slots| && c.ring[k] in c.next && c.ring[k] in c.parent && c.ring[k - 1] in c.next
        && c.parent[c.ring[k]] in c.lists && j < |c.lists[c.parent[c.ring[k]]]|
        && c.ring[k] == t && c.slots[i] == t && d == KernelState.Reaped(c, k, i, j)
    }

    method ReapZombie(t: Ptr)
      requires Valid() && t in next && t != first && t != current && t in state && state[t] == Zombie
      requires t in parent && parent[t] in awaited ==> awaited[parent[t]] != t
      modifies Repr()
      ensures Valid() && IsReaped(old(Snap()), Snap(), t) && files.tables == Drop(old(files.tables), t)
      ensures OtherStep(old(Seen(Snap())), Seen(Snap()))
    {
      ghost var c, heads, tables := Snap(), links.heads, files.tables;
      SeenIsOk();
      ghost var k, i, j := FindTask(t);
      UnlinkTask(t, k, i, j);
      ghost var heads1 := links.heads;
      ReleaseFiles(t);
      links.Forget(t);
      ReapedOk(c, heads, heads1, tables, first, k, i, j);
      RemoveRecord(c, t, k, i, j);
      SeenIsOk();
      ReapedIsOther(c, Snap(), k);
    }

    method RemoveRecord(ghost c: Cols, t: Ptr, ghost k: nat, ghost i: nat, ghost j: nat)
      requires 0 < k < |c.ring| && c.ring[k] == t && t in c.next && t in c.parent && c.ring[k - 1] in c.next
      requires i < |c.slots|
      requires c.parent[t] in c.lists && j < |c.lists[c.parent[t]]|
      requires Snap() == c.(next := c.next[c.ring[k - 1] := c.next[t]], slots := SetSlot(c.slots, i, 0))
      modifies this
      ensures Snap() == KernelState.Reaped(c, k, i, j)
    {
      DropFields(t);
      ring := Without(ring, k);
      lists := Drop(lists[c.parent[t] := Without(lists[c.parent[t]], j)], t);
    }

    // task_release: the descriptors were closed when the task ended, so nothing is left to close.
    method ReleaseFiles(t: Ptr)
      requires files.Valid() && t in files.tables
      modifies files
      ensures files.Valid() && files.tables == Drop(old(files.tables), t)
    {
      files.CloseAll(t);
      files.DropTable(t);
    }

    // ---------------------------------------------------------------- scheduling

    ghost predicate CanWalk(c: nat)
      reads this
    {
      && IsRing(next, ring) && ring[0] == first && |ring| <= MAX_TASKS && c < |ring| && ring[c] == current
      && (forall t :: t in ring ==> t in state) && current in next
    }

    lemma RingFacts() returns (c: nat)
      requires Valid()
      ensures CanWalk(c)
    {
      Unfold(Snap(), links.heads, files.tables, first);
      RingFits(slots, ring);
      c :| c < |ring| && ring[c] == current;
    }

    /** The first task after the current one that is ready, walking the ring at most MAX_TASKS + 2 steps; the kernel
        task when there is none. */
    method PickNextTask(ghost c: nat) returns (node: Ptr, ghost p: nat)
      requires CanWalk(c)
      modifies this`state
      ensures state == if old(state)[current] == Running then old(state)[current := Ready] else old(state)
      ensures p < |ring| && node == ring[p] && IsNext(ring, ReadyTasks(state), c, p)
    {
      if state[current] == Running {
        state := state[current := Ready];
      }
      ghost var left, ready := state, ReadyTasks(state);
      ghost var n := |ring|;
      assert Chained(next, ring, c);
      node := next[current];
      p := After(n, c);
      for i := 0 to MAX_TASKS + 2
        invariant state == left && p < n && node == ring[p] && (i < n ==> p == Ahead(n, c, i + 1))
        invariant NoneAhead(ring, ready, c, (if i < n then i else n) + 1)
      {
        if node != first && state[node] == Ready {
          Found(ring, ready, c, p, i);
          return;
        }
        assert Chained(next, ring, p);
        NotFound(ring, ready, c, p, i);
        node := next[node];
        p := After(n, p);
      }
      node, p := first, 0;
      forall q: nat | q < n ensures !CanRun(ring, ready, q) {
        AllAhead(ring, ready, c, q);
      }
    }

    static lemma Found(ring: Ring, ready: set<Ptr>, c: nat, p: nat, i: nat)
      requires AllApart(ring) && c < |ring| && p < |ring| && (i < |ring| ==> p == Ahead(|ring|, c, i + 1))
      requires NoneAhead(ring, ready, c, (if i < |ring| then i else |ring|) + 1)
      requires ring[p] != ring[0] && ring[p] in ready
      ensures IsNext(ring, ready, c, p)
    {
      assert CanRun(ring, ready, p);
      if i >= |ring| {
        AllAhead(ring, ready, c, p);
      }
    }

    static lemma NotFound(ring: Ring, ready: set<Ptr>, c: nat, p: nat, i: nat)
      requires AllApart(ring) && c < |ring| && p < |ring| && (i < |ring| ==> p == Ahead(|ring|, c, i + 1))
      requires NoneAhead(ring, ready, c, (if i < |ring| then i else |ring|) + 1)
      requires ring[p] == ring[0] || ring[p] !in ready
      ensures NoneAhead(ring, ready, c, (if i + 1 < |ring| then i + 1 else |ring|) + 1)
      ensures i + 1 < |ring| ==> After(|ring|, p) == Ahead(|ring|, c, i + 2)
    {
      if ring[p] == ring[0] {
        OnePosition(ring, 0, p);
      }
    }

    // What was chosen may run.
    static lemma Choice(c: Cols, heads: Memory, tables: Tables, first: Ptr, node: Ptr, i: nat, p: nat, left: map<Ptr,
                        State>)
      requires KernelOk(c, heads, tables, first) && i < |c.ring| && p < |c.ring| && node == c.ring[p]
      requires c.ring[0] == first
      requires c.current in c.state
      requires left == if c.state[c.current] == Running then c.state[c.current := Ready] else c.state
      requires IsNext(c.ring, ReadyTasks(left), i, p)
      ensures node in c.next && node in c.state
      ensures node == first || c.state[node] == Ready || (node == c.current && c.state[node] == Running)
      ensures KernelOk(SwitchedTo(c, node), heads, tables, first)
      ensures SwitchedTo(c, node) == c.(current := node, state := left[node := Running], turns := c.turns + 1)
    {
      assert PartOk(Places, c, heads, tables, first) && PartOk(Lives, c, heads, tables, first);
      assert node in c.ring;
      assert p != 0 ==> CanRun(c.ring, ReadyTasks(left), p);
      SwitchedOk(c, heads, tables, first, node);
    }

    // It is the next in turn.
    static lemma TurnTaken(c: Cols, heads: Memory, tables: Tables, first: Ptr, node: Ptr, i: nat, p: nat, left: map<Ptr,
                           State>)
      requires KernelOk(c, heads, tables, first) && i < |c.ring| && p < |c.ring| && node == c.ring[p]
      requires c.ring[i] == c.current
      requires c.current in c.state
      requires left == if c.state[c.current] == Running then c.state[c.current := Ready] else c.state
      requires IsNext(c.ring, ReadyTasks(left), i, p)
      requires KernelOk(SwitchedTo(c, node), heads, tables, first)
      ensures SchedStep(Seen(c), Seen(SwitchedTo(c, node)))
    {
      SeenOk(c, heads, tables, first);
      SeenOk(SwitchedTo(c, node), heads, tables, first);
      assert Seen(c).ready <= ReadyTasks(left) <= Seen(c).ready + {c.current};
      assert Seen(SwitchedTo(c, node)).ready == ReadyTasks(left) - {node};
    }

    /** sched: the task that ran is ready again, and the next one in turn runs. */
    method Sched()
      requires Valid()
      modifies this`state, this`current, this`turns
      ensures Valid() && Runs()
      ensures old(current) in old(state) && current in old(state) && Snap() == SwitchedTo(old(Snap()), current)
      ensures SchedStep(old(Seen(Snap())), Seen(Snap()))
      ensures current == first || old(state)[current] == Ready
           || (current == old(current) && old(state)[current] == Running)
    {
      ghost var c := Snap();
      var node := ChooseNext();
      state := state[node := Running];
      current := node;
      turns := turns + 1;
      assert Snap() == SwitchedTo(c, node);
    }

    ghost predicate MayRun(c: Cols, node: Ptr)
      reads links, files
    {
      && node in c.state && c.current in c.state
      && (node == first || c.state[node] == Ready || (node == c.current && c.state[node] == Running))
      && KernelOk(SwitchedTo(c, node), links.heads, files.tables, first)
      && SchedStep(Seen(c), Seen(SwitchedTo(c, node)))
    }

    method ChooseNext() returns (node: Ptr)
      requires Valid()
      modifies this`state
      ensures current in old(state) && MayRun(old(Snap()), node) && files.Valid()
      ensures state == if old(state)[current] == Running then old(state)[current := Ready] else old(state)
    {
      ghost var c := Snap();
      ghost var i := RingFacts();
      ghost var p;
      node, p := PickNextTask(i);
      Choice(c, links.heads, files.tables, first, node, i, p, state);
      TurnTaken(c, links.heads, files.tables, first, node, i, p, state);
    }

    // ---------------------------------------------------------------- exit and waitpid

    // Task t has ended, and then sched was called.
    static ghost predicate EndedThenSwitched(c: Cols, d: Cols, first: Ptr, t: Ptr, code: int) {
      exists e: Cols ::
        Terminated(c, e, first, t, code) && e.current in e.state && d == SwitchedTo(e, d.current)
    }

    /** exit: the current task ends, and another one runs. */
    method Exit(status: int) returns (rc: int)
      requires Valid() && Runs() && current !in awaited
      modifies Repr()
      ensures Valid() && Runs()
      ensures rc == -EPERM <==> old(current) == first
      ensures rc == -EPERM ==> Snap() == old(Snap()) && files.tables == old(files.tables)
      ensures rc != -EPERM ==> EndedThenSwitched(old(Snap()), Snap(), first, old(current), status)
      ensures rc != -EPERM ==> IsEnded(old(current), status) && current != old(current)
      ensures OtherTables(old(files.tables), files.tables, old(current))
      ensures next.Keys == old(next.Keys)
      ensures Passes(old(Seen(Snap())), Seen(Snap()), if rc == -EPERM then 0 else 1)
    {
      if current == first {
        SeenIsOk();
        NothingPasses(Seen(Snap()));
        return -EPERM;
      }
      EndCurrent(status);
      rc := 0;
    }

    ghost predicate IsEnded(t: Ptr, code: int)
      reads this
    {
      t in state && state[t] == Zombie && t in exitCode && exitCode[t] == code && t !in awaited
    }

    // The descriptors of tasks other than t are what they were.
    static ghost predicate OtherTables(tables: Tables, tables': Tables, t: Ptr) {
      && (forall u :: u != t ==> (u in tables <==> u in tables'))
      && (forall u :: u in tables && u != t ==> tables'[u] == tables[u])
    }

    method EndCurrent(code: int)
      requires Valid() && Runs() && current != first
      modifies Repr()
      ensures Valid() && Runs() && next.Keys == old(next.Keys) && current != old(current)
      ensures IsEnded(old(current), code) && EndedThenSwitched(old(Snap()), Snap(), first, old(current), code)
      ensures OtherTables(old(files.tables), files.tables, old(current))
      ensures Passes(old(Seen(Snap())), Seen(Snap()), 1)
    {
      CurrentIsKnown();
      ghost var c, t := Snap(), current;
      TaskTerminate(current, code);
      assert IsEnded(t, code);
      ghost var d := Snap();
      OtherPasses(Seen(c), Seen(d));
      Sched();
      ThenSched(Seen(c), Seen(d), Seen(Snap()), 0);
      assert IsEnded(t, code);
    }

    /** What is certain about a task inside waitpid, whenever it runs again or is looked at: the child it waits for
        is still there, is still its child and not itself; and as long as the task is blocked, the child has not
        ended and no signal is pending, so no wake-up was lost. */
    lemma WaiterIsRight(t: Ptr)
      requires Valid() && t in awaited
      ensures t in next && t != first && t in state && t in pending
      ensures awaited[t] in next && awaited[t] in parent && parent[awaited[t]] == t && awaited[t] in state
      ensures awaited[t] != t
      ensures awaited[t] != first
      ensures state[t] == Blocked ==> state[awaited[t]] != Zombie && pending[t] == 0
      ensures state[t] != Zombie
    {
      Unfold(Snap(), links.heads, files.tables, first);
      assert StateOk(StatusOf(Snap()), lists, first, current, t);
      assert Listed(lists, parent, first, t) && Listed(lists, parent, first, first);
    }

    /** And every blocked task is inside waitpid. */
    lemma BlockedIsWaiter(t: Ptr)
      requires Valid() && t in state && state[t] == Blocked
      ensures t in awaited
    {
      Unfold(Snap(), links.heads, files.tables, first);
      assert StateOk(StatusOf(Snap()), lists, first, current, t);
    }

    // What one turn of the loop in waitpid comes to, for the child t.
    static ghost predicate WaitMeans(c: Cols, d: Cols, t: Ptr, r: WaitResult) {
      && t in c.state && c.current in c.pending && t in c.exitCode && c.current in c.state
      && match r
         case NoChild => false
         case Exited(child, code) =>
           && child == t && c.state[t] == Zombie && code == c.exitCode[t]
           && IsReaped(c.(awaited := Drop(c.awaited, c.current)), d, t)
         case Interrupted =>
           c.state[t] != Zombie && c.pending[c.current] != 0 && d == c.(awaited := Drop(c.awaited, c.current))
         case Waiting =>
           c.state[t] != Zombie && c.pending[c.current] == 0 && d == SwitchedTo(Blocking(c, t), d.current)
    }

    // One turn of the loop in waitpid: reap the child, give up because of a signal, or sleep.
    method WaitStep(child: Ptr) returns (r: WaitResult)
      requires Valid() && Runs() && current != first
      requires child in next && child in state && child in parent && parent[child] == current && child != current
      requires child != first
      modifies Repr()
      ensures Valid() && Runs() && WaitMeans(old(Snap()), Snap(), child, r)
      ensures r.Exited? ==> child !in next
      ensures r.Exited? || r.Interrupted? ==> current !in awaited && current == old(current)
      ensures r.Waiting? ==> old(current) in awaited && awaited[old(current)] == child
      ensures r.Waiting? ==> old(current) in state && state[old(current)] == Blocked
      ensures next.Keys == if r.Exited? then old(next.Keys) - {child} else old(next.Keys)
      ensures OtherTables(old(files.tables), files.tables, child) && (!r.Exited? ==> files.tables == old(files.tables))
      ensures Passes(old(Seen(Snap())), Seen(Snap()), if r.Waiting? then 1 else 0)
    {
      CurrentIsKnown();
      if state[child] != Zombie {
        Known(Snap(), links.heads, files.tables, first, child);
        if pending[current] != 0 {
          LeaveWait();
          return Interrupted;
        }
        Sleep(child);
        return Waiting;
      }
      r := Collect(child);
    }

    method LeaveWait()
      requires Valid() && Runs()
      modifies this`awaited
      ensures Valid() && Runs() && Snap() == old(Snap()).(awaited := Drop(old(awaited), old(current)))
      ensures Passes(old(Seen(Snap())), Seen(Snap()), 0)
    {
      ghost var c := Snap();
      SeenIsOk();
      LeaveOk(c, links.heads, files.tables, first, current);
      awaited := Drop(awaited, current);
      NothingPasses(Seen(c));
    }

    method Sleep(child: Ptr)
      requires Valid() && Runs() && current != first && current in pending && pending[current] == 0
      requires child in state && child in parent && parent[child] == current && state[child] != Zombie
      modifies this`state, this`current, this`awaited, this`turns
      ensures Valid() && Runs()
      ensures Snap() == SwitchedTo(Blocking(old(Snap()), child), current)
      ensures old(current) in awaited && awaited[old(current)] == child && old(current) in state
      ensures state[old(current)] == Blocked
      ensures Passes(old(Seen(Snap())), Seen(Snap()), 1)
    {
      ghost var c := Snap();
      SeenIsOk();
      BlockingOk(c, links.heads, files.tables, first, child);
      state := state[current := Blocked];
      awaited := awaited[current := child];
      ghost var d := Snap();
      SameRingIsOther(c, d);
      OtherPasses(Seen(c), Seen(d));
      Sched();
      ThenSched(Seen(c), Seen(d), Seen(Snap()), 0);
    }

    method Collect(child: Ptr) returns (r: WaitResult)
      requires Valid() && Runs() && child in next && child in state && state[child] == Zombie && child != first
      requires child != current && child in parent && parent[child] == current
      modifies Repr()
      ensures Valid() && Runs() && current == old(current) && current !in awaited
      ensures child in old(exitCode) && r == Exited(child, old(exitCode)[child]) && child !in next
      ensures IsReaped(old(Snap()).(awaited := Drop(old(awaited), old(current))), Snap(), child)
      ensures next.Keys == old(next.Keys) - {child} && OtherTables(old(files.tables), files.tables, child)
      ensures Passes(old(Seen(Snap())), Seen(Snap()), 0)
    {
      Known(Snap(), links.heads, files.tables, first, child);
      var status := exitCode[child];
      LeaveWait();
      ghost var d, live := Snap(), next.Keys;
      TaskReap(child);
      OtherPasses(Seen(d), Seen(Snap()));
      assert next.Keys == live - {child};
      r := Exited(child, status);
    }

    // Task t is a child of the current one and has the pid.
    static predicate IsChild(c: Cols, p: int, t: Ptr) {
      t in c.next && t in c.pid && t in c.parent && c.pid[t] == p && c.parent[t] == c.current
    }

    /** waitpid, up to its first call of sched: without such a child nothing happens, and a child that has ended is
        reaped at once. */
    method Waitpid(p: int) returns (r: WaitResult)
      requires Valid() && Runs() && current != first && current !in awaited
      modifies Repr()
      ensures Valid() && Runs()
      ensures r == NoChild <==> forall t :: !IsChild(old(Snap()), p, t)
      ensures forall t :: IsChild(old(Snap()), p, t) ==> WaitMeans(old(Snap()), Snap(), t, r)
      ensures r == NoChild ==> Snap() == old(Snap()) && files.tables == old(files.tables)
      ensures r.Exited? ==> r.child in old(next) && r.child !in next
      ensures r.Exited? ==> OtherTables(old(files.tables), files.tables, r.child)
      ensures r.Exited? ==> r.child in old(exitCode) && r.code == old(exitCode)[r.child]
      ensures r.Exited? ==> r.child in old(pid) && old(pid)[r.child] == p
      ensures !r.Exited? ==> files.tables == old(files.tables)
      ensures next.Keys == if r.Exited? then old(next.Keys) - {r.child} else old(next.Keys)
      ensures Passes(old(Seen(Snap())), Seen(Snap()), if r.Waiting? then 1 else 0)
    {
      SeenIsOk();
      NothingPasses(Seen(Snap()));
      var child := FindByPid(p);
      if child == 0 {
        return NoChild;
      }
      Known(Snap(), links.heads, files.tables, first, child);
      OnlyOne(child, p);
      if parent[child] != current {
        return NoChild;
      }
      NotItself(child);
      assert IsChild(Snap(), p, child);
      r := WaitStep(child);
    }

    lemma OnlyOne(child: Ptr, p: int)
      requires Valid() && child in pid && pid[child] == p
      ensures forall t :: t in pid && pid[t] == p ==> t == child
    {
      forall t | t in pid && pid[t] == p ensures t == child {
        PidIsUnique(t, child);
      }
    }

    lemma NotItself(child: Ptr)
      requires Valid() && child in parent && parent[child] == current && current != first
      ensures child != current && child != first
    {
      Unfold(Snap(), links.heads, files.tables, first);
      assert Listed(lists, parent, first, child);
    }

    /** waitpid, from where sched returned: `child`, kept on the kernel stack meanwhile, still leads to the child. */
    method WaitResume(child: Ptr) returns (r: WaitResult)
      requires Valid() && Runs() && current in awaited && awaited[current] == child
      modifies Repr()
      ensures Valid() && Runs() && WaitMeans(old(Snap()), Snap(), child, r)
      ensures r.Exited? ==> child !in next && child in old(next) && current == old(current) && current !in awaited
      ensures OtherTables(old(files.tables), files.tables, child) && (!r.Exited? ==> files.tables == old(files.tables))
      ensures next.Keys == if r.Exited? then old(next.Keys) - {child} else old(next.Keys)
      ensures Passes(old(Seen(Snap())), Seen(Snap()), if r.Waiting? then 1 else 0)
    {
      WaiterIsRight(current);
      r := WaitStep(child);
    }

    // ---------------------------------------------------------------- signals

    // Ends a task because of a signal; when it is the running one, another one runs.
    method EndBySignal(target: Ptr, sig: nat)
      requires Valid() && Runs() && target in next && target != first && target in state && state[target] != Zombie
      modifies Repr()
      ensures Valid() && Runs() && next.Keys == old(next.Keys)
      ensures IsEnded(target, 128 + sig) && OtherTables(old(files.tables), files.tables, target)
      ensures if target == old(current) then EndedThenSwitched(old(Snap()), Snap(), first, target, 128 + sig)
              else Terminated(old(Snap()), Snap(), first, target, 128 + sig)
      ensures Passes(old(Seen(Snap())), Seen(Snap()), if target == old(current) then 1 else 0)
    {
      if target == current {
        EndCurrent(128 + sig);
        return;
      }
      ghost var c := Snap();
      Known(c, links.heads, files.tables, first, target);
      TaskTerminate(target, 128 + sig);
      OtherPasses(Seen(c), Seen(Snap()));
    }

    // The signal ends the task at once: it is SIGKILL, or there is no handler for it.
    static predicate Kills(c: Cols, t: Ptr, sig: int) {
      sig == SIGKILL || (t in c.handler && c.handler[t] == 0)
    }

    // What a signal for task t comes to.
    static ghost predicate Signalled(c: Cols, d: Cols, first: Ptr, t: Ptr, sig: int) {
      && t in c.state && t in c.pending && sig > 0
      && if Kills(c, t, sig) && t == c.current then EndedThenSwitched(c, d, first, t, 128 + sig)
         else if Kills(c, t, sig) then Terminated(c, d, first, t, 128 + sig)
         else d == c.(state := Woken(c.state, t), pending := c.pending[t := sig])
    }

    /** A signal for the task with a pid.  SIGKILL ends it; SIGTERM ends it too unless it has a handler, which then
        runs when the task next returns to user mode: a task that waits is woken for it. */
    method SignalSend(sig: int, target: int) returns (rc: int, ghost t: Ptr)
      requires Valid() && Runs()
      modifies Repr()
      ensures Valid() && Runs()
      ensures rc == 1 <==> target == 0
      ensures rc == 2 ==> forall u :: u in old(next) && u in old(pid) && u in old(state) && old(pid)[u] == target ==>
                old(state)[u] == Zombie
      ensures rc != 0 ==> rc == 1 || rc == 2 || rc == -1
      ensures rc == -1 ==> sig != SIGKILL && sig != SIGTERM
      ensures rc == 0 ==> (sig == 1 || sig == 2) && t != first && t in old(next) && t in old(state)
      ensures rc == 0 ==> old(state)[t] != Zombie
      ensures rc != 0 ==> Snap() == old(Snap()) && files.tables == old(files.tables)
      ensures next.Keys == old(next.Keys)
      ensures rc == 0 ==> t in old(pid) && old(pid)[t] == target && Signalled(old(Snap()), Snap(), first, t, sig)
      ensures rc == 0 ==> OtherTables(old(files.tables), files.tables, t)
      ensures Passes(old(Seen(Snap())), Seen(Snap()),
                     if rc == 0 && t == old(current) && Kills(old(Snap()), t, sig) then 1 else 0)
    {
      SeenIsOk();
      NothingPasses(Seen(Snap()));
      t := 0;
      if target == 0 {
        return 1, t;
      }
      var found := FindByPid(target);
      t := found;
      if found == 0 {
        return 2, t;
      }
      Known(Snap(), links.heads, files.tables, first, found);
      OnlyOne(found, target);
      if state[found] == Zombie {
        return 2, t;
      }
      if sig != SIGKILL && sig != SIGTERM {
        return -1, t;
      }
      TargetIsUserTask(found);
      ExecuteSignal(found, sig);
      rc := 0;
    }

    lemma TargetIsUserTask(t: Ptr)
      requires Valid() && t in pid && pid[t] != 0
      ensures t != first
    {
      Unfold(Snap(), links.heads, files.tables, first);
    }

    method ExecuteSignal(t: Ptr, sig: nat)
      requires Valid() && Runs() && t in next && t != first && t in state && t in handler && state[t] != Zombie
      requires sig == SIGKILL || sig == SIGTERM
      modifies Repr()
      ensures Valid() && Runs() && Signalled(old(Snap()), Snap(), first, t, sig) && next.Keys == old(next.Keys)
      ensures OtherTables(old(files.tables), files.tables, t)
      ensures Passes(old(Seen(Snap())), Seen(Snap()), if Kills(old(Snap()), t, sig) && t == old(current) then 1 else 0)
    {
      Known(Snap(), links.heads, files.tables, first, t);
      if sig == SIGKILL || handler[t] == 0 {
        EndBySignal(t, sig);
      } else {
        NoteSignal(t, sig);
      }
    }

    // The signal is delivered when the task next returns to user mode; if it sleeps, it is woken.
    method NoteSignal(t: Ptr, sig: nat)
      requires Valid() && Runs() && t in next && t in state && state[t] != Zombie
      modifies this`state, this`pending
      ensures Valid() && Runs()
      ensures Snap() == old(Snap()).(state := Woken(old(state), t), pending := old(pending)[t := sig])
      ensures Passes(old(Seen(Snap())), Seen(Snap()), 0)
    {
      ghost var c := Snap();
      SeenIsOk();
      if state[t] == Blocked {
        WakeOk(Snap(), links.heads, files.tables, first, t);
        state := state[t := Ready];
      }
      PendingOk(Snap(), links.heads, files.tables, first, t, sig);
      pending := pending[t := sig];
      SameRingIsOther(c, Snap());
      OtherPasses(Seen(c), Seen(Snap()));
    }

    // A pending signal whose handler can be entered.
    static predicate Handled(c: Cols, copied: bool) {
      && c.current in c.pending && c.pending[c.current] == SIGTERM
      && c.current in c.handler && c.handler[c.current] != 0 && copied
    }

    // What becomes of the tasks on the way back to user mode.
    static ghost predicate Delivered(c: Cols, d: Cols, first: Ptr, copied: bool) {
      && c.current in c.pending
      && if c.pending[c.current] == 0 then d == c
         else if Handled(c, copied) then
           d == c.(pending := c.pending[c.current := 0], handler := c.handler[c.current := 0])
         else c.current != first ==>
           EndedThenSwitched(c.(pending := c.pending[c.current := 0]), d, first, c.current, 128 + c.pending[c.current])
    }

    /** On the way back to user mode a pending signal is delivered: the handler is entered once, with the trampoline as
        its return address, or the task ends.  `copied` says whether the user stack could take that address. */
    method SignalCheckUser(userRip: nat, userRsp: nat, copied: bool) returns (rip: nat, rsp: int)
      requires Valid() && Runs() && current !in awaited
      modifies Repr()
      ensures Valid() && Runs() && next.Keys == old(next.Keys)
      ensures Delivered(old(Snap()), Snap(), first, copied)
      ensures OtherTables(old(files.tables), files.tables, old(current))
      ensures old(current) in old(pending) && old(current) in old(handler)
      ensures Handled(old(Snap()), copied) ==> rip == old(handler)[old(current)] && rsp == HandlerStack(userRsp)
      ensures !Handled(old(Snap()), copied) ==> rip == userRip && rsp == userRsp
      ensures old(pending)[old(current)] != 0 && old(current) != first && !Handled(old(Snap()), copied) ==>
        IsEnded(old(current), 128 + old(pending)[old(current)]) && current != old(current)
      ensures Passes(old(Seen(Snap())), Seen(Snap()),
                     if old(pending)[old(current)] == 0 || Handled(old(Snap()), copied) then 0 else 1)
    {
      rip, rsp := userRip, userRsp;
      CurrentIsKnown();
      if pending[current] == 0 {
        SeenIsOk();
        NothingPasses(Seen(Snap()));
        return;
      }
      if pending[current] == SIGTERM && handler[current] != 0 && copied {
        rsp := HandlerStack(userRsp);
        rip := handler[current];
        ReplaceProgram(0);
        return;
      }
      EndCurrentBySignal();
    }

    /** Where the handler finds its return address: below the red zone, as if called on a stack aligned to 16
        (System V AMD64 ABI, sections 3.2.2 and 3.4.1). */
    static function HandlerStack(userRsp: nat): (rsp: int)
      ensures rsp % 16 == 8 && userRsp - 128 - 24 < rsp <= userRsp - 128 - 8
    {
      (userRsp - 128) - (userRsp - 128) % 16 - 8
    }

    method EndCurrentBySignal()
      requires Valid() && Runs() && current !in awaited && current in pending
      modifies Repr()
      ensures Valid() && Runs() && next.Keys == old(next.Keys)
      ensures OtherTables(old(files.tables), files.tables, old(current))
      ensures old(current) != first ==>
        && IsEnded(old(current), 128 + old(pending)[old(current)]) && current != old(current)
        && EndedThenSwitched(old(Snap()).(pending := old(pending)[old(current) := 0]), Snap(), first, old(current),
                             128 + old(pending)[old(current)])
      ensures Passes(old(Seen(Snap())), Seen(Snap()), 1)
    {
      var sig := pending[current];
      ghost var c := Snap();
      ClearPending();
      ghost var d := Snap();
      assert d == c.(pending := c.pending[c.current := 0]) && Seen(d) == Seen(c);
      LeaveFor(128 + sig);
    }

    // Another task runs, after the current one has ended, unless that is the kernel's.
    method LeaveFor(code: int)
      requires Valid() && Runs() && current !in awaited
      modifies Repr()
      ensures Valid() && Runs() && next.Keys == old(next.Keys)
      ensures OtherTables(old(files.tables), files.tables, old(current))
      ensures old(current) != first ==>
        && IsEnded(old(current), code) && current != old(current)
        && EndedThenSwitched(old(Snap()), Snap(), first, old(current), code)
      ensures Passes(old(Seen(Snap())), Seen(Snap()), 1)
    {
      if current != first {
        EndCurrent(code);
      } else {
        SwitchFromFirst(code);
      }
    }

    method ClearPending()
      requires Valid() && Runs()
      modifies this`pending
      ensures Valid() && Runs() && Snap() == old(Snap()).(pending := old(pending)[old(current) := 0])
    {
      CurrentIsKnown();
      PendingOk(Snap(), links.heads, files.tables, first, current, 0);
      pending := pending[current := 0];
    }

    // The kernel task cannot be ended.
    method SwitchFromFirst(code: int)
      requires Valid() && Runs() && current == first
      modifies Repr()
      ensures Valid() && Runs() && next.Keys == old(next.Keys) && files.tables == old(files.tables)
      ensures Passes(old(Seen(Snap())), Seen(Snap()), 1)
    {
      ghost var c := Snap();
      CurrentIsKnown();
      TaskTerminate(current, code);
      Sched();
      SchedPasses(Seen(c), Seen(Snap()));
    }

    static lemma HandlerOk(c: Cols, d: Cols, heads: Memory, tables: Tables, first: Ptr)
      requires KernelOk(c, heads, tables, first) && d == c.(handler := d.handler) && d.handler.Keys == c.handler.Keys
      ensures KernelOk(d, heads, tables, first)
    {
      assert PartOk(Places, c, heads, tables, first) && PartOk(Lives, c, heads, tables, first);
      StatusOnly(c, d, heads, tables, first);
    }

    static lemma ReplacedRecords(c: Cols, sigterm: nat)
      requires c.current in RecordsOf(c)
      ensures RecordsOf(c.(pending := c.pending[c.current := 0], handler := c.handler[c.current := sigterm])) ==
              RecordsOf(c)[c.current := RecordsOf(c)[c.current].(pending := 0, handler := sigterm)]
    {
      var d := c.(pending := c.pending[c.current := 0], handler := c.handler[c.current := sigterm]);
      assert HasRecord(c, c.current);
      forall u ensures HasRecord(d, u) <==> HasRecord(c, u) {
      }
    }

    /** execve, as far as the task record goes: no signal is pending, and the handler is the new program's. */
    method ReplaceProgram(sigterm: nat)
      requires Valid() && Runs()
      modifies this`pending, this`handler
      ensures Valid() && Runs()
      ensures Snap() == old(Snap()).(pending := old(pending)[old(current) := 0],
                                     handler := old(handler)[old(current) := sigterm])
      ensures current in old(Records()) &&
        Records() == old(Records())[current := old(Records())[current].(pending := 0, handler := sigterm)]
      ensures Passes(old(Seen(Snap())), Seen(Snap()), 0)
    {
      ghost var c := Snap();
      SeenIsOk();
      CurrentIsKnown();
      PendingOk(c, links.heads, files.tables, first, current, 0);
      TasksHaveRecords();
      ReplacedRecords(c, sigterm);
      handler := handler[current := sigterm];
      pending := pending[current := 0];
      HandlerOk(c.(pending := pending), Snap(), links.heads, files.tables, first);
      NothingPasses(Seen(c));
    }

    // ---------------------------------------------------------------- open files

    // Descriptors change; nothing else about the tasks does.
    static lemma DescriptorsOk(c: Cols, heads: Memory, tables: Tables, tables': Tables, first: Ptr)
      requires KernelOk(c, heads, tables, first) && tables'.Keys == tables.Keys && c.current in tables'
      requires (forall u :: u in tables && u != c.current ==> tables'[u] == tables[u])
      requires c.current in c.state && c.state[c.current] != Zombie
      ensures KernelOk(c, heads, tables', first)
    {
      forall part ensures PartOk(part, c, heads, tables', first) {
        assert PartOk(part, c, heads, tables, first);
      }
    }

    /** open, for the running task. */
    method Open(inode: nat, file: Ptr) returns (fd: int)
      requires Valid() && Runs() && (file != 0 ==> file !in files.files)
      modifies files
      ensures Valid() && Runs()
      ensures OpenFiles.Opened(old(files.tables), old(files.files), files.tables, files.files, current, inode, file, fd)
    {
      CurrentIsKnown();
      ghost var tables := files.tables;
      fd := files.VfsOpen(current, inode, file);
      DescriptorsOk(Snap(), links.heads, tables, files.tables, first);
    }

    /** close, for the running task. */
    method Close(fd: int) returns (rc: int)
      requires Valid() && Runs()
      modifies files
      ensures Valid() && Runs()
      ensures OpenFiles.Closed(old(files.tables), old(files.files), files.tables, files.files, current, fd, rc)
    {
      CurrentIsKnown();
      ghost var tables := files.tables;
      rc := files.VfsClose(current, fd);
      DescriptorsOk(Snap(), links.heads, tables, files.tables, first);
    }

    /** read, for the running task; `n` is what the file system returns. */
    method Read(fd: int, n: int) returns (rc: int)
      requires Valid() && Runs()
      modifies files`files
      ensures Valid() && Runs()
      ensures OpenFiles.Advanced(files.tables, old(files.files), files.files, current, fd, n, rc)
    {
      CurrentIsKnown();
      rc := files.VfsRead(current, fd, n);
    }

    /** write, for the running task. */
    method Write(fd: int, n: int) returns (rc: int)
      requires Valid() && Runs()
      modifies files`files
      ensures Valid() && Runs()
      ensures OpenFiles.Advanced(files.tables, old(files.files), files.files, current, fd, n, rc)
    {
      CurrentIsKnown();
      rc := files.VfsWrite(current, fd, n);
    }

    /** In every reachable state each open file counts the descriptors, over all tasks, that refer to it, there is at
        least one, and no descriptor refers to a file that is gone. */
    lemma EveryFileIsCounted(f: Ptr, t: Ptr, i: nat)
      requires Valid()
      ensures f in files.files ==> files.files[f].refCount == |OpenFiles.Holders(files.tables, f)| > 0
      ensures t in files.tables <==> t in next
      ensures t in next && i < |files.tables[t]| && files.tables[t][i] != 0 ==> files.tables[t][i] in files.files
    {
      Unfold(Snap(), links.heads, files.tables, first);
      if f in files.files {
        assert OpenFiles.FileOk(files.tables, files.files, f);
      }
      if t in next {
        assert OpenFiles.TableOk(files.tables, files.files, t);
      }
    }

    // ---------------------------------------------------------------- the idle loop

    // A zombie that only the kernel task could reap.
    static predicate OrphanIn(c: Cols, first: Ptr, t: Ptr) {
      t in c.state && t in c.parent && c.state[t] == Zombie && c.parent[t] == first && t != c.current && t != first
    }

    ghost predicate IsOrphan(t: Ptr)
      reads this
    {
      OrphanIn(Snap(), first, t)
    }

    // Task t has the same record as before.
    static predicate KeptTask(c: Cols, d: Cols, t: Ptr) {
      && t in c.next && t in c.state && t in c.parent && t in c.pid
      && t in c.pending && t in c.handler && t in c.exitCode
      && t in d.next && t in d.state && t in d.parent && t in d.pid
      && t in d.pending && t in d.handler && t in d.exitCode
      && d.state[t] == c.state[t] && d.parent[t] == c.parent[t] && d.pid[t] == c.pid[t]
      && d.pending[t] == c.pending[t] && d.handler[t] == c.handler[t] && d.exitCode[t] == c.exitCode[t]
    }

    // Only orphans have gone; everybody else is as before.
    static ghost predicate OnlyOrphansGone(c: Cols, d: Cols, first: Ptr) {
      && d.current == c.current
      && (forall t :: t in d.next ==> KeptTask(c, d, t))
      && (forall t :: t in c.next && t !in d.next ==> OrphanIn(c, first, t))
    }

    /** Reaps the zombies whose parent is the kernel task: those go, and nothing else changes. */
    method ReapOrphans()
      requires Valid()
      modifies Repr()
      ensures Valid() && OnlyOrphansGone(old(Snap()), Snap(), first)
      ensures forall t :: t in next <==> t in old(next) && !old(IsOrphan(t))
      ensures forall t :: t in files.tables ==> t in old(files.tables) && files.tables[t] == old(files.tables)[t]
      ensures Passes(old(Seen(Snap())), Seen(Snap()), 0)
    {
      ghost var c := Snap();
      SlotsKnown();
      NothingGone();
      SeenIsOk();
      NothingPasses(Seen(c));
      for i := 1 to MAX_TASKS
        invariant Valid() && OnlyOrphansGone(c, Snap(), first) && Passes(Seen(c), Seen(Snap()), 0)
        invariant forall t :: t in files.tables ==> t in old(files.tables) && files.tables[t] == old(files.tables)[t]
        invariant |slots| == MAX_TASKS && slots[0] == first && NoOrphanBefore(i)
      {
        var t := ReapTurn(i, c);
      }
      NoOrphanLeft();
      AllOrphansGone(c);
    }

    // One turn of the loop, seen from the state c in which it began.
    method ReapTurn(i: nat, ghost c: Cols) returns (t: Ptr)
      requires Valid() && 0 < i < MAX_TASKS && |slots| == MAX_TASKS && slots[0] == first && NoOrphanBefore(i)
      requires OnlyOrphansGone(c, Snap(), first) && Passes(Seen(c), Seen(Snap()), 0)
      modifies Repr()
      ensures Valid() && |slots| == MAX_TASKS && slots[0] == first && NoOrphanBefore(i + 1)
      ensures OnlyOrphansGone(c, Snap(), first) && Passes(Seen(c), Seen(Snap()), 0) && (old(Runs()) ==> Runs())
      ensures t == 0 ==> Snap() == old(Snap())
      ensures t != 0 ==> old(IsOrphan(t)) && t in old(next)
      ensures forall u :: u in next <==> u in old(next) && u != t
      ensures forall u :: u in files.tables ==> u in old(files.tables) && files.tables[u] == old(files.tables)[u]
    {
      ghost var d := Snap();
      assert PartOk(Places, d, links.heads, files.tables, first);
      t := ReapIfOrphan(i);
      assert PartOk(Places, Snap(), links.heads, files.tables, first);
      StillPasses(c, d, Snap(), first);
      FewerLeft(c, d, Snap(), first);
      CurrentIsKnown();
      assert KeptTask(d, Snap(), current);
    }

    ghost predicate NoOrphanBefore(i: nat)
      reads this
    {
      forall j {:trigger slots[j]} :: 0 < j < i && j < |slots| && slots[j] != 0 ==> !IsOrphan(slots[j])
    }

    lemma NothingGone()
      requires Valid()
      ensures OnlyOrphansGone(Snap(), Snap(), first)
    {
      forall t | t in next ensures KeptTask(Snap(), Snap(), t) {
        Known(Snap(), links.heads, files.tables, first, t);
      }
    }

    // Whoever waits after orphans have gone did so before.
    static lemma StillPasses(c: Cols, d: Cols, e: Cols, first: Ptr)
      requires Passes(Seen(c), Seen(d), 0) && Passes(Seen(d), Seen(e), 0)
      requires OnlyOrphansGone(d, e, first) && RingPart(d, first) && RingPart(e, first)
      ensures Passes(Seen(c), Seen(e), 0)
    {
      forall t | WaitsIn(Seen(e), t) ensures WaitsIn(Seen(d), t) {
        assert t in e.ring && KeptTask(d, e, t);
        assert t in d.ring;
        var p := PositionOf(d.ring, t);
        var q := PositionOf(e.ring[1..], t);
        assert e.ring[q + 1] == t && Apart(e.ring, 0, q + 1);
        assert d.ring[1..][p - 1] == t;
      }
      PassesTrans(Seen(c), Seen(d), Seen(e), 0, 0);
    }

    static lemma FewerLeft(c: Cols, d: Cols, e: Cols, first: Ptr)
      requires OnlyOrphansGone(c, d, first) && OnlyOrphansGone(d, e, first)
      ensures OnlyOrphansGone(c, e, first)
    {
      forall t | t in e.next ensures KeptTask(c, e, t) {
        assert KeptTask(d, e, t) && KeptTask(c, d, t);
      }
      forall t | t in c.next && t !in e.next ensures OrphanIn(c, first, t) {
        if t in d.next {
          assert KeptTask(c, d, t) && OrphanIn(d, first, t);
        }
      }
    }

    lemma AllOrphansGone(c: Cols)
      requires OnlyOrphansGone(c, Snap(), first) && forall t :: !IsOrphan(t)
      ensures forall t :: t in next <==> t in c.next && !OrphanIn(c, first, t)
    {
      forall t | t in next ensures !OrphanIn(c, first, t) {
        assert KeptTask(c, Snap(), t) && !IsOrphan(t);
      }
    }

    lemma SlotsKnown()
      requires Valid()
      ensures |slots| == MAX_TASKS && slots[0] == first
      ensures forall j {:trigger slots[j]} :: 0 <= j < MAX_TASKS && slots[j] != 0 ==> slots[j] in next
    {
      Unfold(Snap(), links.heads, files.tables, first);
    }

    lemma NoOrphanLeft()
      requires Valid() && |slots| == MAX_TASKS && slots[0] == first && NoOrphanBefore(MAX_TASKS)
      ensures forall t :: !IsOrphan(t)
    {
      Unfold(Snap(), links.heads, files.tables, first);
      forall t ensures !IsOrphan(t) {
        if IsOrphan(t) {
          assert t in next && t in slots;
          KernelState.FirstIsThere(Snap(), first);
          var j :| 0 <= j < |slots| && slots[j] == t;
        }
      }
    }

    /** One turn of the loop: the task in slot i goes if it is an orphan; `t` is that task, or 0. */
    method ReapIfOrphan(i: nat) returns (t: Ptr)
      requires Valid() && 0 < i < MAX_TASKS && |slots| == MAX_TASKS && slots[0] == first && NoOrphanBefore(i)
      modifies Repr()
      ensures Valid() && |slots| == MAX_TASKS && slots[0] == first && NoOrphanBefore(i + 1)
      ensures t == 0 ==> Snap() == old(Snap())
      ensures t != 0 ==> old(IsOrphan(t)) && t in old(next) && IsReaped(old(Snap()), Snap(), t)
      ensures forall u :: u in next <==> u in old(next) && u != t
      ensures OnlyOrphansGone(old(Snap()), Snap(), first) && Passes(old(Seen(Snap())), Seen(Snap()), 0)
      ensures forall u :: u in files.tables ==> u in old(files.tables) && files.tables[u] == old(files.tables)[u]
    {
      SeenIsOk();
      NothingPasses(Seen(Snap()));
      SlotsKnown();
      NothingGone();
      FirstIsKnown();
      t := slots[i];
      if t != 0 {
        Known(Snap(), links.heads, files.tables, first, t);
        if state[t] == Zombie && parent[t] == first && t != current {
          ReapOrphan(t, i);
          return;
        }
      }
      t := 0;
    }

    method ReapOrphan(t: Ptr, ghost i: nat)
      requires Valid() && t in next && t in state && t in parent && state[t] == Zombie && parent[t] == first
      requires t != current
      requires 0 < i < MAX_TASKS && |slots| == MAX_TASKS && slots[0] == first && slots[i] == t && NoOrphanBefore(i)
      modifies Repr()
      ensures Valid() && |slots| == MAX_TASKS && slots[0] == first && NoOrphanBefore(i + 1)
      ensures old(IsOrphan(t)) && IsReaped(old(Snap()), Snap(), t) && Passes(old(Seen(Snap())), Seen(Snap()), 0)
      ensures forall u :: u in files.tables ==> u in old(files.tables) && files.tables[u] == old(files.tables)[u]
      ensures forall u :: u in next <==> u in old(next) && u != t
      ensures OnlyOrphansGone(old(Snap()), Snap(), first)
    {
      ghost var c := Snap();
      FirstNeverWaits(t);
      SlotsDiffer();
      TaskReap(t);
      OtherPasses(Seen(c), Seen(Snap()));
      OrphanReaped(c, t, i);
    }

    lemma OrphanReaped(c: Cols, t: Ptr, i: nat)
      requires Valid() && IsReaped(c, Snap(), t) && OrphanIn(c, first, t) && t != 0
      requires 0 < i < MAX_TASKS && |c.slots| == MAX_TASKS && c.slots[0] == first && c.slots[i] == t
      requires forall j: nat, k: nat {:trigger SlotApart(c.slots, j, k)} :: j < MAX_TASKS && k < MAX_TASKS ==>
        SlotApart(c.slots, j, k)
      requires forall j {:trigger c.slots[j]} :: 0 < j < i && c.slots[j] != 0 ==> !OrphanIn(c, first, c.slots[j])
      ensures |slots| == MAX_TASKS && slots[0] == first && NoOrphanBefore(i + 1)
      ensures forall u :: u in next <==> u in c.next && u != t
      ensures OnlyOrphansGone(c, Snap(), first)
    {
      SlotsKnown();
      OthersStay(c, t, i);
      ReapedKeeps(c, t);
      forall j | 0 < j < i + 1 && slots[j] != 0 ensures !IsOrphan(slots[j]) {
        assert j != i && slots[j] == c.slots[j] && KeptTask(c, Snap(), slots[j]);
      }
    }

    lemma ReapedKeeps(c: Cols, t: Ptr)
      requires Valid() && IsReaped(c, Snap(), t)
      ensures forall u :: u in next <==> u in c.next && u != t
      ensures current == c.current && forall u :: u in next ==> KeptTask(c, Snap(), u)
    {
      var k: nat, l: nat, j: nat :|
        && 0 < k < |c.ring| && l < |c.slots| && c.ring[k] in c.next && c.ring[k] in c.parent && c.ring[k - 1] in c.next
        && c.parent[c.ring[k]] in c.lists && j < |c.lists[c.parent[c.ring[k]]]|
        && c.ring[k] == t && c.slots[l] == t && Snap() == KernelState.Reaped(c, k, l, j);
      forall u | u in next ensures KeptTask(c, Snap(), u) {
        Known(Snap(), links.heads, files.tables, first, u);
      }
    }

    lemma FirstNeverWaits(t: Ptr)
      requires Valid() && t in next && t in state && state[t] == Zombie
      ensures first !in awaited && t != first && t != 0
    {
      Unfold(Snap(), links.heads, files.tables, first);
      KernelState.FirstIsThere(Snap(), first);
      assert StateOk(StatusOf(Snap()), lists, first, current, first);
    }

    lemma SlotsDiffer()
      requires Valid()
      ensures |slots| == MAX_TASKS
      ensures forall j: nat, k: nat {:trigger SlotApart(slots, j, k)} :: j < MAX_TASKS && k < MAX_TASKS ==>
        SlotApart(slots, j, k)
    {
      Unfold(Snap(), links.heads, files.tables, first);
    }

    // Reaping one task moves nothing else in the table.
    lemma OthersStay(c: Cols, t: Ptr, i: nat)
      requires IsReaped(c, Snap(), t) && 0 < i < |c.slots| && c.slots[i] == t && |c.slots| == MAX_TASKS
      requires forall j: nat, k: nat {:trigger SlotApart(c.slots, j, k)} :: j < MAX_TASKS && k < MAX_TASKS ==>
        SlotApart(c.slots, j, k)
      requires t != 0
      ensures |slots| == MAX_TASKS && forall j {:trigger slots[j]} :: 0 <= j < MAX_TASKS ==>
        slots[j] == if j == i then 0 else c.slots[j]
    {
      var k: nat, l: nat, j: nat :|
        && 0 < k < |c.ring| && l < |c.slots| && c.ring[k] in c.next && c.ring[k] in c.parent && c.ring[k - 1] in c.next
        && c.parent[c.ring[k]] in c.lists && j < |c.lists[c.parent[c.ring[k]]]|
        && c.ring[k] == t && c.slots[l] == t && Snap() == KernelState.Reaped(c, k, l, j);
      assert SlotApart(c.slots, i, l);
    }
  }
}
