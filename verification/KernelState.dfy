/** All that the kernel keeps about its tasks, as a value, and what each step does to it.

    Tasks are known by their addresses; each field of a task is a map from addresses. */
module KernelState {
  import opened IntrusiveList
  import opened RunQueue
  import opened TaskTable
  import opened Family
  import opened TaskStates
  import OpenFiles

  predicate PidApart(pid: map<Ptr, nat>, t: Ptr, u: Ptr) {
    t in pid && u in pid && t != u ==> pid[t] != pid[u]
  }

  ghost predicate PidsOk(pid: map<Ptr, nat>, nextPid: nat) {
    && (forall t, u {:trigger PidApart(pid, t, u)} :: PidApart(pid, t, u))
    && nextPid > 0 && (forall t :: t in pid ==> pid[t] < nextPid)
  }

  // `ring`, `lists` and `awaited` are not in memory as such: the order of the ring, the child lists, and for each
  // task inside waitpid the child it waits for.
  datatype Cols = Cols(current: Ptr, slots: seq<Ptr>, next: map<Ptr, Ptr>, parent: Parents, state: map<Ptr, State>,
                       pid: map<Ptr, nat>, pending: map<Ptr, nat>, handler: map<Ptr, nat>, exitCode: map<Ptr, int>,
                       nextPid: nat, ring: Ring, lists: Lists, awaited: map<Ptr, Ptr>, turns: nat)

  type Tables = map<Ptr, OpenFiles.Table>

  function StatusOf(c: Cols): Status {
    Status(c.parent, c.state, c.pending, c.awaited)
  }

  /** The ring visits just the tasks there are, each once; the table holds the same ones. */
  ghost predicate RingPart(c: Cols, first: Ptr) {
    && IsRing(c.next, c.ring) && c.ring[0] == first && TaskTable.TableOk(c.slots, c.ring)
    && forall t :: t in c.next <==> t in c.ring
  }

  predicate KeyPart(c: Cols) {
    c.parent.Keys == c.pid.Keys == c.handler.Keys == c.exitCode.Keys == c.next.Keys
  }

  ghost predicate FilePart(c: Cols, tables: Tables) {
    && tables.Keys == c.next.Keys
    && forall t :: t in c.next && t in c.state && c.state[t] == Zombie ==> OpenFiles.AllClosed(tables[t])
  }

  ghost predicate PidPart(c: Cols, first: Ptr) {
    PidsOk(c.pid, c.nextPid) && first in c.pid && c.pid[first] == 0
  }

  ghost predicate StatePart(c: Cols, first: Ptr) {
    c.current in c.next && StatesOk(StatusOf(c), c.lists, c.next.Keys, first, c.current)
  }

  // The invariant of the kernel has five parts; a proof usually needs only some of them.
  datatype Part = Places | Families | Lives | Pids | Descriptors

  ghost predicate PartOk(part: Part, c: Cols, heads: Memory, tables: Tables, first: Ptr) {
    match part
    case Places => RingPart(c, first) && KeyPart(c)
    case Families => FamilyOk(heads, c.lists, c.parent, first)
    case Lives => StatePart(c, first)
    case Pids => PidPart(c, first)
    case Descriptors => FilePart(c, tables)
  }

  ghost predicate KernelOk(c: Cols, heads: Memory, tables: Tables, first: Ptr) {
    forall part {:trigger PartOk(part, c, heads, tables, first)} :: PartOk(part, c, heads, tables, first)
  }

  ghost predicate AllParts(c: Cols, heads: Memory, tables: Tables, first: Ptr) {
    && RingPart(c, first) && KeyPart(c) && FamilyOk(heads, c.lists, c.parent, first)
    && StatePart(c, first) && PidPart(c, first) && FilePart(c, tables)
  }

  lemma Unfold(c: Cols, heads: Memory, tables: Tables, first: Ptr)
    requires KernelOk(c, heads, tables, first)
    ensures AllParts(c, heads, tables, first)
  {
    assert PartOk(Places, c, heads, tables, first);
    assert PartOk(Families, c, heads, tables, first);
    assert PartOk(Lives, c, heads, tables, first);
    assert PartOk(Pids, c, heads, tables, first);
    assert PartOk(Descriptors, c, heads, tables, first);
  }

  lemma Fold(c: Cols, heads: Memory, tables: Tables, first: Ptr)
    requires AllParts(c, heads, tables, first)
    ensures KernelOk(c, heads, tables, first)
  {
    forall part ensures PartOk(part, c, heads, tables, first) {
    }
  }

  // What there is to every task.
  lemma Known(c: Cols, heads: Memory, tables: Tables, first: Ptr, t: Ptr)
    requires KernelOk(c, heads, tables, first) && t in c.next
    ensures t in c.parent && t in c.state && t in c.pid && t in c.pending && t in c.handler && t in c.exitCode
    ensures t in c.lists
    ensures t in tables && t != 0 && t in c.ring && t in c.slots && c.parent[t] in c.next
    ensures c.current in c.next && first in c.next && |c.slots| == MAX_TASKS && |c.ring| > 0 && c.ring[0] == first
  {
    Unfold(c, heads, tables, first);
    FirstIsThere(c, first);
    assert Listed(c.lists, c.parent, first, t);
  }

  lemma FirstIsThere(c: Cols, first: Ptr)
    requires RingPart(c, first)
    ensures first in c.next && 0 !in c.next && first != 0
  {
    assert c.ring[0] in c.ring;
  }

  // ---------------------------------------------------------------- a task comes

  // A new task, child of p and ready to run, in slot i.
  function Admitted(c: Cols, p: Ptr, child: Ptr, sigterm: nat, i: nat): Cols
    requires i < |c.slots| && |c.ring| > 0 && c.ring[0] in c.next && p in c.lists
  {
    Cols(c.current, SetSlot(c.slots, i, child), c.next[child := c.next[c.ring[0]]][c.ring[0] := child],
         c.parent[child := p],
         c.state[child := Ready], c.pid[child := c.nextPid], c.pending[child := 0], c.handler[child := sigterm],
         c.exitCode[child := 0], c.nextPid + 1, Inserted(c.ring, child),
         c.lists[p := c.lists[p] + [SiblingOf(child)]][child := [ChildrenOf(child)]], c.awaited, c.turns)
  }

  lemma AdmittedRing(c: Cols, first: Ptr, p: Ptr, child: Ptr, sigterm: nat, i: nat)
    requires RingPart(c, first) && p in c.lists && child !in c.next && child != 0 && i < MAX_TASKS && c.slots[i] == 0
    ensures c.ring[0] in c.next && RingPart(Admitted(c, p, child, sigterm, i), first)
    ensures Admitted(c, p, child, sigterm, i).next.Keys == c.next.Keys + {child}
  {
    InsertedRing(c.next, c.ring, child);
    assert c.ring[0] in c.ring;
    InsertTable(c.slots, c.ring, i, child);
    var next' := c.next[child := c.next[c.ring[0]]][c.ring[0] := child];
    forall t ensures t in next' <==> t in Inserted(c.ring, child) {
      InInserted(c.ring, child, t);
    }
  }

  lemma NewPid(pid: map<Ptr, nat>, nextPid: nat, t: Ptr)
    requires PidsOk(pid, nextPid) && t !in pid
    ensures PidsOk(pid[t := nextPid], nextPid + 1)
  {
    var pid' := pid[t := nextPid];
    forall u, v ensures PidApart(pid', u, v) {
      assert PidApart(pid, u, v);
    }
  }

  lemma AdmittedFiles(c: Cols, tables: Tables, first: Ptr, p: Ptr, child: Ptr, sigterm: nat, i: nat)
    requires FilePart(c, tables) && p in c.next && child !in c.next && i < |c.slots| && |c.ring| > 0
    requires c.ring[0] in c.next && p in c.lists
    ensures FilePart(Admitted(c, p, child, sigterm, i), tables[child := tables[p]])
  {
  }

  lemma AdmittedStates(c: Cols, first: Ptr, p: Ptr, child: Ptr, sigterm: nat, i: nat)
    requires StatesOk(StatusOf(c), c.lists, c.next.Keys, first, c.current)
    requires i < |c.slots| && |c.ring| > 0 && c.ring[0] in c.next && first in c.next
    requires p in c.next && c.state[p] != Zombie && child !in c.next
    ensures var d := Admitted(c, p, child, sigterm, i);
      StatesOk(StatusOf(d), d.lists, c.next.Keys + {child}, first, d.current)
  {
    var d := Admitted(c, p, child, sigterm, i);
    NewStates(StatusOf(c), c.lists, d.lists, c.next.Keys, first, c.current, p, child);
  }

  lemma AdmittedLives(c: Cols, first: Ptr, p: Ptr, child: Ptr, sigterm: nat, i: nat)
    requires RingPart(c, first) && StatePart(c, first) && p in c.next && c.state[p] != Zombie
    requires child !in c.next && child != 0 && i < |c.slots| && c.slots[i] == 0 && p in c.lists
    ensures |c.ring| > 0 && c.ring[0] in c.next && StatePart(Admitted(c, p, child, sigterm, i), first)
  {
    FirstIsThere(c, first);
    AdmittedRing(c, first, p, child, sigterm, i);
    AdmittedStates(c, first, p, child, sigterm, i);
  }

  lemma AdmittedOk(c: Cols, heads: Memory, heads': Memory, tables: Tables, first: Ptr, p: Ptr, child: Ptr, sigterm: nat,
                   i: nat)
    requires KernelOk(c, heads, tables, first) && p in c.next && p in c.state && c.state[p] != Zombie
    requires child !in c.next && child != 0 && i < |c.slots| && c.slots[i] == 0 && p in c.lists && p in tables
    requires IsList(heads', c.lists[p] + [SiblingOf(child)]) && IsList(heads', [ChildrenOf(child)])
    requires forall h :: h in heads && h !in c.lists[p] && h != SiblingOf(child) && h != ChildrenOf(child) ==>
      h in heads' && heads'[h] == heads[h]
    ensures |c.ring| > 0 && c.ring[0] in c.next
    ensures KernelOk(Admitted(c, p, child, sigterm, i), heads', tables[child := tables[p]], first)
  {
    assert PartOk(Places, c, heads, tables, first);
    FirstIsThere(c, first);
    var d, tables' := Admitted(c, p, child, sigterm, i), tables[child := tables[p]];
    forall part ensures PartOk(part, d, heads', tables', first) {
      AdmittedPart(part, c, heads, heads', tables, first, p, child, sigterm, i);
    }
  }

  /** A child may be linked to a task just as long as that has not ended. */
  lemma AdmittedExactly(c: Cols, heads: Memory, heads': Memory, tables: Tables, first: Ptr, p: Ptr, child: Ptr,
                        sigterm: nat, i: nat)
    requires KernelOk(c, heads, tables, first) && p in c.next && p in c.state
    requires child !in c.next && child != 0 && i < |c.slots| && c.slots[i] == 0 && p in c.lists && p in tables
    requires IsList(heads', c.lists[p] + [SiblingOf(child)]) && IsList(heads', [ChildrenOf(child)])
    requires forall h :: h in heads && h !in c.lists[p] && h != SiblingOf(child) && h != ChildrenOf(child) ==>
      h in heads' && heads'[h] == heads[h]
    ensures |c.ring| > 0 && c.ring[0] in c.next
    ensures KernelOk(Admitted(c, p, child, sigterm, i), heads', tables[child := tables[p]], first)
            <==> c.state[p] != Zombie
  {
    assert PartOk(Places, c, heads, tables, first);
    FirstIsThere(c, first);
    if c.state[p] != Zombie {
      AdmittedOk(c, heads, heads', tables, first, p, child, sigterm, i);
    } else {
      var d, tables' := Admitted(c, p, child, sigterm, i), tables[child := tables[p]];
      if KernelOk(d, heads', tables', first) {
        ParentLives(d, heads', tables', first, child);
      }
    }
  }

  lemma ParentLives(c: Cols, heads: Memory, tables: Tables, first: Ptr, t: Ptr)
    requires KernelOk(c, heads, tables, first) && t in c.next && t != first
    ensures t in c.parent && c.parent[t] in c.state && c.state[c.parent[t]] != Zombie
  {
    assert PartOk(Lives, c, heads, tables, first);
    assert StateOk(StatusOf(c), c.lists, first, c.current, t);
  }

  lemma AdmittedPlaces(c: Cols, heads: Memory, tables: Tables, first: Ptr, p: Ptr, child: Ptr, sigterm: nat, i: nat)
    requires KernelOk(c, heads, tables, first) && p in c.lists && |c.ring| > 0 && c.ring[0] in c.next
    requires child !in c.next && child != 0 && i < |c.slots| && c.slots[i] == 0
    ensures var d := Admitted(c, p, child, sigterm, i); RingPart(d, first) && KeyPart(d)
  {
    assert PartOk(Places, c, heads, tables, first);
    AdmittedRing(c, first, p, child, sigterm, i);
  }

  lemma AdmittedFamily(c: Cols, heads: Memory, heads': Memory, tables: Tables, first: Ptr, p: Ptr, child: Ptr,
                       sigterm: nat, i: nat)
    requires KernelOk(c, heads, tables, first) && p in c.next
    requires child !in c.next && i < |c.slots| && c.slots[i] == 0 && p in c.lists
    requires IsList(heads', c.lists[p] + [SiblingOf(child)]) && IsList(heads', [ChildrenOf(child)])
    requires forall h :: h in heads && h !in c.lists[p] && h != SiblingOf(child) && h != ChildrenOf(child) ==>
      h in heads' && heads'[h] == heads[h]
    requires |c.ring| > 0 && c.ring[0] in c.next
    ensures var d := Admitted(c, p, child, sigterm, i); FamilyOk(heads', d.lists, d.parent, first)
  {
    assert PartOk(Places, c, heads, tables, first) && PartOk(Families, c, heads, tables, first);
    ChildAdded(heads, heads', c.lists, c.parent, first, p, child);
  }

  lemma AdmittedPart(part: Part, c: Cols, heads: Memory, heads': Memory, tables: Tables, first: Ptr, p: Ptr, child: Ptr,
                     sigterm: nat, i: nat)
    requires KernelOk(c, heads, tables, first) && p in c.next && p in c.state && c.state[p] != Zombie
    requires child !in c.next && child != 0 && i < |c.slots| && c.slots[i] == 0 && p in c.lists && p in tables
    requires IsList(heads', c.lists[p] + [SiblingOf(child)]) && IsList(heads', [ChildrenOf(child)])
    requires forall h :: h in heads && h !in c.lists[p] && h != SiblingOf(child) && h != ChildrenOf(child) ==>
      h in heads' && heads'[h] == heads[h]
    requires |c.ring| > 0 && c.ring[0] in c.next
    ensures PartOk(part, Admitted(c, p, child, sigterm, i), heads', tables[child := tables[p]], first)
  {
    assert PartOk(Places, c, heads, tables, first);
    match part
    case Places =>
      AdmittedPlaces(c, heads, tables, first, p, child, sigterm, i);
    case Families =>
      AdmittedFamily(c, heads, heads', tables, first, p, child, sigterm, i);
    case Lives =>
      assert PartOk(Lives, c, heads, tables, first);
      AdmittedLives(c, first, p, child, sigterm, i);
    case Pids =>
      assert PartOk(Pids, c, heads, tables, first);
      NewPid(c.pid, c.nextPid, child);
    case Descriptors =>
      assert PartOk(Descriptors, c, heads, tables, first);
      AdmittedFiles(c, tables, first, p, child, sigterm, i);
  }

  // The heads of a new task are in no list.
  lemma FreshHeads(c: Cols, heads: Memory, heads': Memory, first: Ptr, p: Ptr, child: Ptr)
    requires FamilyOk(heads, c.lists, c.parent, first) && p in c.lists && child !in c.parent
    requires forall h :: h in heads && h != ChildrenOf(child) && h != SiblingOf(child) ==>
      h in heads' && heads'[h] == heads[h]
    ensures ChildrenOf(child) !in c.lists[p] && SiblingOf(child) !in c.lists[p]
    ensures IsList(heads', c.lists[p]) && c.lists[p][0] == ChildrenOf(p)
  {
    assert ListOk(heads, c.lists, c.parent, p);
    forall h | h in c.lists[p] ensures h in heads && h != ChildrenOf(child) && h != SiblingOf(child) {
      Member(heads, c.lists, c.parent, p, h);
    }
    ListKept(heads, heads', c.lists[p]);
  }

  // ---------------------------------------------------------------- states change

  // A change of states in which nobody becomes a zombie, or of what states depend on.
  lemma StatusOnly(c: Cols, d: Cols, heads: Memory, tables: Tables, first: Ptr)
    requires KernelOk(c, heads, tables, first)
    requires d == c.(current := d.current, state := d.state, pending := d.pending, awaited := d.awaited,
                     handler := d.handler, exitCode := d.exitCode, turns := d.turns)
    requires d.handler.Keys == c.handler.Keys && d.exitCode.Keys == c.exitCode.Keys && d.current in c.next
    requires StatesOk(StatusOf(d), c.lists, c.next.Keys, first, d.current)
    requires forall t :: t in c.next && t in d.state && d.state[t] == Zombie ==> t in c.state && c.state[t] == Zombie
    ensures KernelOk(d, heads, tables, first)
  {
    forall part ensures PartOk(part, d, heads, tables, first) {
      assert PartOk(part, c, heads, tables, first) && PartOk(Places, c, heads, tables, first);
    }
  }

  function SwitchedTo(c: Cols, next: Ptr): Cols
    requires c.current in c.state
  {
    c.(current := next, state := Switched(c.state, c.current, next), turns := c.turns + 1)
  }

  lemma SwitchedOk(c: Cols, heads: Memory, tables: Tables, first: Ptr, next: Ptr)
    requires KernelOk(c, heads, tables, first) && next in c.next && next in c.state && c.current in c.state
    requires next == first || c.state[next] == Ready || (next == c.current && c.state[next] == Running)
    ensures KernelOk(SwitchedTo(c, next), heads, tables, first)
    ensures SwitchedTo(c, next).state[next] == Running
  {
    assert PartOk(Lives, c, heads, tables, first);
    SchedStates(StatusOf(c), c.lists, c.next.Keys, first, c.current, next);
    StatusOnly(c, SwitchedTo(c, next), heads, tables, first);
  }

  function Blocking(c: Cols, child: Ptr): Cols {
    c.(state := c.state[c.current := Blocked], awaited := c.awaited[c.current := child])
  }

  lemma BlockingOk(c: Cols, heads: Memory, tables: Tables, first: Ptr, child: Ptr)
    requires KernelOk(c, heads, tables, first) && c.current in c.state && c.current in c.pending && c.current != first
    requires c.state[c.current] == Running && c.pending[c.current] == 0
    requires child in c.state && child in c.parent && c.parent[child] == c.current && c.state[child] != Zombie
    ensures KernelOk(Blocking(c, child), heads, tables, first)
  {
    assert PartOk(Lives, c, heads, tables, first);
    BlockStates(StatusOf(c), c.lists, c.next.Keys, first, c.current, child);
    StatusOnly(c, Blocking(c, child), heads, tables, first);
  }

  lemma WakeOk(c: Cols, heads: Memory, tables: Tables, first: Ptr, t: Ptr)
    requires KernelOk(c, heads, tables, first) && t in c.state && c.state[t] == Blocked
    ensures KernelOk(c.(state := c.state[t := Ready]), heads, tables, first)
  {
    assert PartOk(Lives, c, heads, tables, first);
    WakeStates(StatusOf(c), c.lists, c.next.Keys, first, c.current, t);
    StatusOnly(c, c.(state := c.state[t := Ready]), heads, tables, first);
  }

  lemma PendingOk(c: Cols, heads: Memory, tables: Tables, first: Ptr, t: Ptr, sig: nat)
    requires KernelOk(c, heads, tables, first) && t in c.state
    requires sig == 0 || (c.state[t] != Blocked && c.state[t] != Zombie)
    ensures KernelOk(c.(pending := c.pending[t := sig]), heads, tables, first)
  {
    assert PartOk(Lives, c, heads, tables, first);
    PendingStates(StatusOf(c), c.lists, c.next.Keys, first, c.current, t, sig);
    StatusOnly(c, c.(pending := c.pending[t := sig]), heads, tables, first);
  }

  lemma LeaveOk(c: Cols, heads: Memory, tables: Tables, first: Ptr, t: Ptr)
    requires KernelOk(c, heads, tables, first) && t in c.state && c.state[t] != Blocked
    ensures KernelOk(c.(awaited := Drop(c.awaited, t)), heads, tables, first)
  {
    Unfold(c, heads, tables, first);
    LeaveStates(StatusOf(c), c.lists, c.next.Keys, first, c.current, t);
    StatusOnly(c, c.(awaited := Drop(c.awaited, t)), heads, tables, first);
  }

  // ---------------------------------------------------------------- a task ends

  // Closing the descriptors of one task.
  lemma ClosedOk(c: Cols, heads: Memory, tables: Tables, tables': Tables, first: Ptr, t: Ptr)
    requires KernelOk(c, heads, tables, first) && tables'.Keys == tables.Keys && t in tables
    requires forall u :: u in tables && u != t ==> tables'[u] == tables[u]
    requires OpenFiles.AllClosed(tables'[t])
    ensures KernelOk(c, heads, tables', first)
  {
    Unfold(c, heads, tables, first);
    Fold(c, heads, tables', first);
  }

  // The first child of t has become the last one of the first task.
  function Reparented(c: Cols, first: Ptr, t: Ptr): Cols
    requires t in c.lists && |c.lists[t]| > 1 && c.lists[t][1].SiblingOf? && first in c.lists
  {
    var child := c.lists[t][1].task;
    c.(parent := c.parent[child := first],
       lists := c.lists[t := Without(c.lists[t], 1)][first := c.lists[first] + [SiblingOf(child)]])
  }

  // What the first link in a child list is.
  lemma FirstChild(c: Cols, heads: Memory, first: Ptr, t: Ptr)
    requires FamilyOk(heads, c.lists, c.parent, first) && t in c.lists
    ensures IsList(heads, c.lists[t]) && c.lists[t][0] == ChildrenOf(t)
    ensures Joined(heads, c.lists[t], 0)
    ensures heads[ChildrenOf(t)].next == if |c.lists[t]| > 1 then c.lists[t][1] else ChildrenOf(t)
    ensures |c.lists[t]| > 1 ==>
      c.lists[t][1].SiblingOf? && c.lists[t][1].task in c.parent && c.parent[c.lists[t][1].task] == t
    ensures |c.lists[t]| > 1 && t != first ==> c.lists[t][1].task != first && c.lists[t][1].task != t
  {
    assert ListOk(heads, c.lists, c.parent, t);
    assert Joined(heads, c.lists[t], 0);
    if |c.lists[t]| > 1 {
      assert IsLink(c.parent, t, c.lists[t][1]);
      var child := c.lists[t][1].task;
      assert Listed(c.lists, c.parent, first, child) && Listed(c.lists, c.parent, first, t);
      assert c.lists[t][1] in c.lists[t];
    }
  }

  // Before the second of the two list operations: the child is in no list.
  lemma ReparentHalfway(c: Cols, heads: Memory, heads1: Memory, first: Ptr, t: Ptr)
    requires FamilyOk(heads, c.lists, c.parent, first) && t in c.lists && first in c.lists && t != first
    requires |c.lists[t]| > 1 && IsList(heads1, Without(c.lists[t], 1))
    requires forall h :: h in heads && h !in c.lists[t] ==> h in heads1 && heads1[h] == heads[h]
    ensures c.lists[t][1].SiblingOf?
    ensures TakenOut(heads1, c.lists[t := Without(c.lists[t], 1)], c.parent, first, c.lists[t][1].task)
    ensures IsList(heads1, c.lists[first]) && c.lists[first][0] == ChildrenOf(first) && c.lists[t][1] !in c.lists[first]
  {
    ChildTakenOut(heads, heads1, c.lists, c.parent, first, t, 1);
    assert ListOk(heads1, c.lists[t := Without(c.lists[t], 1)], c.parent, first);
  }

  lemma ReparentedFamily(c: Cols, heads1: Memory, heads2: Memory, first: Ptr, t: Ptr)
    requires t in c.lists && first in c.lists && t != first && |c.lists[t]| > 1 && c.lists[t][1].SiblingOf?
    requires TakenOut(heads1, c.lists[t := Without(c.lists[t], 1)], c.parent, first, c.lists[t][1].task)
    requires IsList(heads2, c.lists[first] + [c.lists[t][1]])
    requires forall h :: h in heads1 && h !in c.lists[first] && h != c.lists[t][1] ==>
      h in heads2 && heads2[h] == heads1[h]
    ensures var d := Reparented(c, first, t); FamilyOk(heads2, d.lists, d.parent, first)
  {
    ChildAdopted(heads1, heads2, c.lists[t := Without(c.lists[t], 1)], c.parent, first, c.lists[t][1].task, first);
  }

  lemma ReparentedOk(c: Cols, heads: Memory, heads1: Memory, heads2: Memory, tables: Tables, first: Ptr, t: Ptr)
    requires KernelOk(c, heads, tables, first) && t in c.state && t != first && c.state[t] != Zombie && t !in c.awaited
    requires t in c.lists && |c.lists[t]| > 1 && c.lists[t][1].SiblingOf? && first in c.lists
    requires TakenOut(heads1, c.lists[t := Without(c.lists[t], 1)], c.parent, first, c.lists[t][1].task)
    requires IsList(heads2, c.lists[first] + [c.lists[t][1]])
    requires forall h :: h in heads1 && h !in c.lists[first] && h != c.lists[t][1] ==>
      h in heads2 && heads2[h] == heads1[h]
    ensures KernelOk(Reparented(c, first, t), heads2, tables, first)
  {
    var d := Reparented(c, first, t);
    ReparentedFamily(c, heads1, heads2, first, t);
    ReparentedStates(c, heads, tables, first, t);
    forall part ensures PartOk(part, d, heads2, tables, first) {
      assert PartOk(part, c, heads, tables, first);
    }
  }

  lemma ReparentedStates(c: Cols, heads: Memory, tables: Tables, first: Ptr, t: Ptr)
    requires KernelOk(c, heads, tables, first) && t in c.state && t != first && c.state[t] != Zombie && t !in c.awaited
    requires t in c.lists && |c.lists[t]| > 1 && c.lists[t][1].SiblingOf? && first in c.lists
    ensures var d := Reparented(c, first, t);
      d.lists.Keys == c.lists.Keys && d.parent.Keys == c.parent.Keys && StatePart(d, first)
  {
    var d, child := Reparented(c, first, t), c.lists[t][1].task;
    assert PartOk(Places, c, heads, tables, first) && PartOk(Families, c, heads, tables, first);
    assert PartOk(Lives, c, heads, tables, first);
    FirstIsThere(c, first);
    FirstChild(c, heads, first, t);
    ReparentStates(StatusOf(c), c.lists, d.lists, c.next.Keys, first, c.current, t, child);
  }

  // Task t, without children by now, has ended.
  function EndedTask(c: Cols, t: Ptr, code: int): Cols
    requires t in c.parent && c.parent[t] in c.state
  {
    c.(state := Ended(StatusOf(c), t), exitCode := c.exitCode[t := code])
  }

  lemma NoChildren(c: Cols, heads: Memory, first: Ptr, t: Ptr, u: Ptr)
    requires FamilyOk(heads, c.lists, c.parent, first) && t in c.lists && |c.lists[t]| == 1 && u in c.parent
    requires u != first
    ensures c.parent[u] != t
  {
    assert Listed(c.lists, c.parent, first, u);
    assert ListOk(heads, c.lists, c.parent, t);
    assert c.lists[t] == [ChildrenOf(t)] && SiblingOf(u) !in c.lists[t];
  }

  lemma EndedOk(c: Cols, heads: Memory, tables: Tables, first: Ptr, t: Ptr, code: int)
    requires KernelOk(c, heads, tables, first) && t in c.state && t in c.parent && t != first && c.state[t] != Zombie
    requires t in c.lists && |c.lists[t]| == 1 && t !in c.awaited && t in c.pending && c.pending[t] == 0
    requires t in tables && OpenFiles.AllClosed(tables[t])
    ensures c.parent[t] in c.state && KernelOk(EndedTask(c, t, code), heads, tables, first)
  {
    EndedStates(c, heads, tables, first, t, code);
    var d := EndedTask(c, t, code);
    assert PartOk(Places, c, heads, tables, first);
    EndedFacts(c, heads, tables, first, t, code);
    forall part ensures PartOk(part, d, heads, tables, first) {
      assert PartOk(part, c, heads, tables, first);
      if part != Lives {
        EndedPart(part, c, d, heads, tables, first, t);
      }
    }
  }

  // What the rest of the invariant needs to know of such a change.
  lemma EndedFacts(c: Cols, heads: Memory, tables: Tables, first: Ptr, t: Ptr, code: int)
    requires PartOk(Places, c, heads, tables, first) && t in c.parent && c.parent[t] in c.state
    ensures t in c.next && t in c.exitCode
    ensures var d := EndedTask(c, t, code);
      && d.exitCode.Keys == c.exitCode.Keys
      && forall u :: u in d.state && d.state[u] == Zombie ==> u == t || (u in c.state && c.state[u] == Zombie)
  {
  }

  lemma EndedPart(part: Part, c: Cols, d: Cols, heads: Memory, tables: Tables, first: Ptr, t: Ptr)
    requires part != Lives && PartOk(part, c, heads, tables, first)
    requires PartOk(Places, c, heads, tables, first) && t in tables && OpenFiles.AllClosed(tables[t])
    requires d == c.(state := d.state, exitCode := d.exitCode) && d.exitCode.Keys == c.exitCode.Keys && t in c.next
    requires forall u :: u in d.state && d.state[u] == Zombie ==> u == t || (u in c.state && c.state[u] == Zombie)
    ensures PartOk(part, d, heads, tables, first)
  {
  }

  lemma EndedStates(c: Cols, heads: Memory, tables: Tables, first: Ptr, t: Ptr, code: int)
    requires KernelOk(c, heads, tables, first) && t in c.state && t in c.parent && t != first && c.state[t] != Zombie
    requires t in c.lists && |c.lists[t]| == 1 && t !in c.awaited && t in c.pending && c.pending[t] == 0
    ensures c.parent[t] in c.state && PartOk(Lives, EndedTask(c, t, code), heads, tables, first)
  {
    Unfold(c, heads, tables, first);
    forall u | u in c.next && u != first ensures c.parent[u] != t {
      NoChildren(c, heads, first, t, u);
    }
    ZombieStates(StatusOf(c), c.lists, c.next.Keys, first, c.current, t);
  }

  // ---------------------------------------------------------------- a task goes

  // Task ring[k], in slot i, number j in its parent's list, is gone.
  function Reaped(c: Cols, k: nat, i: nat, j: nat): Cols
    requires 0 < k < |c.ring| && i < |c.slots| && c.ring[k] in c.next && c.ring[k] in c.parent
    requires c.parent[c.ring[k]] in c.lists && j < |c.lists[c.parent[c.ring[k]]]|
  {
    var t := c.ring[k];
    var p := c.parent[t];
    Cols(c.current, SetSlot(c.slots, i, 0), Drop(c.next[c.ring[k - 1] := c.next[t]], t), Drop(c.parent, t),
         Drop(c.state, t),
         Drop(c.pid, t), Drop(c.pending, t), Drop(c.handler, t), Drop(c.exitCode, t), c.nextPid, Without(c.ring, k),
         Drop(c.lists[p := Without(c.lists[p], j)], t), c.awaited, c.turns)
  }

  lemma DropPid(pid: map<Ptr, nat>, nextPid: nat, t: Ptr)
    requires PidsOk(pid, nextPid)
    ensures PidsOk(Drop(pid, t), nextPid)
  {
    var pid' := Drop(pid, t);
    forall u, v ensures PidApart(pid', u, v) {
      assert PidApart(pid, u, v);
    }
  }

  lemma ReapedRing(c: Cols, first: Ptr, k: nat, i: nat)
    requires RingPart(c, first) && 0 < k < |c.ring| && i < MAX_TASKS && c.slots[i] == c.ring[k]
    ensures c.ring[k] in c.next && c.ring[k - 1] in c.next
    ensures var next' := Drop(c.next[c.ring[k - 1] := c.next[c.ring[k]]], c.ring[k]);
      && IsRing(next', Without(c.ring, k)) && TaskTable.TableOk(SetSlot(c.slots, i, 0), Without(c.ring, k))
      && (forall t :: t in next' <==> t in Without(c.ring, k)) && next'.Keys == c.next.Keys - {c.ring[k]}
      && Without(c.ring, k)[0] == first
  {
    var t := c.ring[k];
    assert t in c.ring && c.ring[k - 1] in c.ring;
    RemovedRing(c.next, c.ring, k);
    RemoveTable(c.slots, c.ring, i, k);
    var less := Without(c.ring, k);
    var next1 := c.next[c.ring[k - 1] := c.next[t]];
    RemovedApart(c.ring, k);
    forall u ensures u in Drop(next1, t) <==> u in less {
      InWithout(c.ring, k, u);
    }
    forall u | u in less ensures u in next1 && u in Drop(next1, t) && Drop(next1, t)[u] == next1[u] {
      InWithout(c.ring, k, u);
    }
    RingKept(next1, Drop(next1, t), less);
    assert Apart(c.ring, k - 1, k);
  }

  lemma ReapedStates(c: Cols, first: Ptr, k: nat, i: nat, j: nat)
    requires StatesOk(StatusOf(c), c.lists, c.next.Keys, first, c.current)
    requires 0 < k < |c.ring| && i < |c.slots| && c.ring[k] in c.next && c.ring[k] in c.parent
    requires c.parent[c.ring[k]] in c.lists && j < |c.lists[c.parent[c.ring[k]]]|
    requires var t := c.ring[k];
      && t != first && t != c.current && c.state[t] == Zombie
      && (forall u :: u in c.next && u != first ==> c.parent[u] != t)
      && (c.parent[t] in c.awaited ==> c.awaited[c.parent[t]] != t)
    ensures var d := Reaped(c, k, i, j);
      StatesOk(StatusOf(d), d.lists, c.next.Keys - {c.ring[k]}, first, c.current)
  {
    var d, t := Reaped(c, k, i, j), c.ring[k];
    assert d.lists.Keys == c.lists.Keys - {t};
    GoneStates(StatusOf(c), c.lists, d.lists, c.next.Keys, first, c.current, t);
  }

  lemma ReapedFamily(c: Cols, heads: Memory, heads1: Memory, first: Ptr, t: Ptr, j: nat)
    requires FamilyOk(heads, c.lists, c.parent, first) && t in c.parent && t != first && |c.lists[t]| == 1
    requires var p := c.parent[t];
      && p in c.lists && p != t && 0 < j < |c.lists[p]| && c.lists[p][j] == SiblingOf(t)
      && IsList(heads1, Without(c.lists[p], j))
      && forall h :: h in heads && h !in c.lists[p] ==> h in heads1 && heads1[h] == heads[h]
    ensures var p := c.parent[t];
      FamilyOk(DropHeads(heads1, t), Drop(c.lists[p := Without(c.lists[p], j)], t), Drop(c.parent, t), first)
  {
    var p := c.parent[t];
    ChildTakenOut(heads, heads1, c.lists, c.parent, first, p, j);
    assert ListOk(heads, c.lists, c.parent, t);
    assert c.lists[t] == [ChildrenOf(t)];
    ChildGone(heads1, c.lists[p := Without(c.lists[p], j)], c.parent, first, t);
  }

  // Where a task is in its parent's list.
  lemma PlaceInList(c: Cols, heads: Memory, first: Ptr, t: Ptr) returns (j: nat)
    requires FamilyOk(heads, c.lists, c.parent, first) && t in c.parent && t != first
    ensures c.parent[t] in c.lists && 0 < j < |c.lists[c.parent[t]]| && c.lists[c.parent[t]][j] == SiblingOf(t)
    ensures IsList(heads, c.lists[c.parent[t]]) && Joined(heads, c.lists[c.parent[t]], j)
  {
    assert Listed(c.lists, c.parent, first, t);
    assert ListOk(heads, c.lists, c.parent, c.parent[t]);
    j :| 0 <= j < |c.lists[c.parent[t]]| && c.lists[c.parent[t]][j] == SiblingOf(t);
    assert Joined(heads, c.lists[c.parent[t]], j);
  }

  lemma ReapedOk(c: Cols, heads: Memory, heads1: Memory, tables: Tables, first: Ptr, k: nat, i: nat, j: nat)
    requires KernelOk(c, heads, tables, first) && 0 < k < |c.ring| && i < |c.slots| && c.slots[i] == c.ring[k]
    requires c.ring[k] in c.next && c.ring[k] in c.parent && c.ring[k] in c.state && c.parent[c.ring[k]] in c.lists
    requires var t, p := c.ring[k], c.parent[c.ring[k]];
      && t != first && t != c.current && c.state[t] == Zombie && (p in c.awaited ==> c.awaited[p] != t)
      && 0 < j < |c.lists[p]| && c.lists[p][j] == SiblingOf(t) && IsList(heads1, Without(c.lists[p], j))
      && forall h :: h in heads && h !in c.lists[p] ==> h in heads1 && heads1[h] == heads[h]
    ensures KernelOk(Reaped(c, k, i, j), DropHeads(heads1, c.ring[k]), Drop(tables, c.ring[k]), first)
  {
    var t := c.ring[k];
    Unfold(c, heads, tables, first);
    assert StateOk(StatusOf(c), c.lists, first, c.current, t);
    forall u | u in c.next && u != first ensures c.parent[u] != t {
      NoChildren(c, heads, first, t, u);
    }
    ReapedRing(c, first, k, i);
    ReapedStates(c, first, k, i, j);
    ReapedFamily(c, heads, heads1, first, t, j);
    DropPid(c.pid, c.nextPid, t);
    Fold(Reaped(c, k, i, j), DropHeads(heads1, t), Drop(tables, t), first);
  }

  // ---------------------------------------------------------------- as the scheduler sees it

  function ReadyTasks(state: map<Ptr, State>): set<Ptr> {
    set t | t in state && state[t] == RunQueue.State.Ready
  }

  function Seen(c: Cols): View {
    View(c.ring, c.current, ReadyTasks(c.state), c.turns)
  }

  lemma SeenOk(c: Cols, heads: Memory, tables: Tables, first: Ptr)
    requires KernelOk(c, heads, tables, first)
    ensures ViewOk(Seen(c)) && c.ring[0] == first
  {
    Unfold(c, heads, tables, first);
    RingFits(c.slots, c.ring);
  }

  /** To the scheduler making a task, giving one back, and all that leaves the ring and the current task alone are
      steps between two calls of sched. */
  lemma AdmittedIsOther(c: Cols, d: Cols, p: Ptr, child: Ptr, sigterm: nat, i: nat)
    requires ViewOk(Seen(c)) && ViewOk(Seen(d)) && child !in c.ring
    requires i < |c.slots| && c.ring[0] in c.next && p in c.lists && d == Admitted(c, p, child, sigterm, i)
    ensures OtherStep(Seen(c), Seen(d))
  {
    assert Grows(Seen(c), Seen(d));
  }

  lemma ReapedIsOther(c: Cols, d: Cols, k: nat)
    requires ViewOk(Seen(c)) && ViewOk(Seen(d))
    requires 0 < k < |c.ring| && c.ring[k] != c.current && d.ring == Without(c.ring, k) && d.current == c.current
    requires d.turns == c.turns
    ensures OtherStep(Seen(c), Seen(d))
  {
    assert Shrinks(Seen(c), Seen(d));
  }

  lemma SameRingIsOther(c: Cols, d: Cols)
    requires ViewOk(Seen(c)) && d.ring == c.ring && d.current == c.current && d.turns == c.turns
    ensures OtherStep(Seen(c), Seen(d))
  {
  }
}
