/** The records of the tasks there are, one by one: what a step does to each of them. */
module TaskRecords {
  import opened IntrusiveList
  import opened RunQueue
  import opened KernelState

  datatype Task = Task(state: State, parent: Ptr, pid: nat, pending: nat, handler: nat, exitCode: int)

  type Records = map<Ptr, Task>

  predicate HasRecord(c: Cols, t: Ptr) {
    t in c.next && t in c.state && t in c.parent && t in c.pid && t in c.pending && t in c.handler && t in c.exitCode
  }

  function RecordsOf(c: Cols): Records {
    map t | t in c.next && HasRecord(c, t) ::
      Task(c.state[t], c.parent[t], c.pid[t], c.pending[t], c.handler[t], c.exitCode[t])
  }

  lemma AllRecorded(c: Cols, heads: Memory, tables: Tables, first: Ptr)
    requires KernelOk(c, heads, tables, first)
    ensures RecordsOf(c).Keys == c.next.Keys
  {
    forall t | t in c.next ensures HasRecord(c, t) {
      Known(c, heads, tables, first, t);
    }
  }

  /** Linking a task adds its record to the others: ready, nothing pending, and with the next pid. */
  lemma AdmittedRecords(c: Cols, p: Ptr, child: Ptr, sigterm: nat, i: nat)
    requires i < |c.slots| && |c.ring| > 0 && c.ring[0] in c.next && p in c.lists && child !in c.next
    ensures RecordsOf(Admitted(c, p, child, sigterm, i))
            == RecordsOf(c)[child := Task(Ready, p, c.nextPid, 0, sigterm, 0)]
  {
    forall t | t != child ensures SameRecord(c, Admitted(c, p, child, sigterm, i), t) {
      AdmittedRecord(c, p, child, sigterm, i, t);
    }
    AdmittedItself(c, p, child, sigterm, i);
    OneMoreRecord(RecordsOf(c), RecordsOf(Admitted(c, p, child, sigterm, i)), child,
                  Task(Ready, p, c.nextPid, 0, sigterm, 0));
  }

  // Task t has the same record as before, or has none as before.
  ghost predicate SameRecord(c: Cols, d: Cols, t: Ptr) {
    && (t in RecordsOf(c) <==> t in RecordsOf(d))
    && (t in RecordsOf(c) ==> RecordsOf(d)[t] == RecordsOf(c)[t])
  }

  lemma AdmittedRecord(c: Cols, p: Ptr, child: Ptr, sigterm: nat, i: nat, t: Ptr)
    requires i < |c.slots| && |c.ring| > 0 && c.ring[0] in c.next && p in c.lists && t != child
    ensures SameRecord(c, Admitted(c, p, child, sigterm, i), t)
  {
  }

  lemma AdmittedItself(c: Cols, p: Ptr, child: Ptr, sigterm: nat, i: nat)
    requires i < |c.slots| && |c.ring| > 0 && c.ring[0] in c.next && p in c.lists
    ensures var r := RecordsOf(Admitted(c, p, child, sigterm, i));
      child in r && r[child] == Task(Ready, p, c.nextPid, 0, sigterm, 0)
  {
  }

  lemma OneMoreRecord(before: Records, after: Records, t: Ptr, x: Task)
    requires t in after && after[t] == x
    requires forall u :: u != t ==> (u in before <==> u in after) && (u in before ==> after[u] == before[u])
    ensures after == before[t := x]
  {
  }
}
