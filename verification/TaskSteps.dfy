/** What the steps of a task's life do to the records of all tasks, field by field. */
module TaskSteps {
  import opened IntrusiveList
  import opened RunQueue
  import opened KernelState
  import opened TaskRecords
  import opened Tasks

  /** Task t has ended: it is a zombie with its exit code, its children are children of the kernel task, its parent is
      ready if it was blocked, and every other record is what it was. */
  predicate HasEnded(before: Records, after: Records, first: Ptr, t: Ptr, code: int) {
    && after.Keys == before.Keys && t in before
    && after[t] == before[t].(state := Zombie, exitCode := code, pending := 0)
    && forall u {:trigger after[u]} :: u in before && u != t ==>
         after[u] == before[u].(
           parent := if before[u].parent == t then first else before[u].parent,
           state := if u == before[t].parent && before[u].state == Blocked then Ready else before[u].state)
  }

  /** The running task `from` has ceased to run for `to`, and is ready unless it sleeps or has ended. */
  predicate HasSwitched(before: Records, after: Records, from: Ptr, to: Ptr) {
    && after.Keys == before.Keys && to in before
    && forall u {:trigger after[u]} :: u in before ==>
         after[u] == before[u].(
           state := if u == to then Running
                    else if u == from && before[u].state == Running then Ready
                    else before[u].state)
  }

  /** The running task t has ended, and task `to` runs. */
  ghost predicate HasLeft(before: Records, after: Records, first: Ptr, t: Ptr, to: Ptr, code: int) {
    exists mid: Records :: HasEnded(before, mid, first, t, code) && HasSwitched(mid, after, t, to)
  }

  /** Signal 1 (SIGKILL) or 2 (SIGTERM) was sent to task t while `from` ran, and `to` runs afterwards.  SIGKILL ends the
      task, and so does SIGTERM if it has no handler; otherwise the signal is pending, and a task that was blocked is
      ready. */
  ghost predicate WasSent(before: Records, after: Records, first: Ptr, t: Ptr, sig: int, from: Ptr, to: Ptr) {
    && t in before && (sig == 1 || sig == 2)
    && if sig == 1 || before[t].handler == 0 then
         if t == from then HasLeft(before, after, first, t, to, 128 + sig)
         else HasEnded(before, after, first, t, 128 + sig) && to == from
       else
         && to == from
         && after == before[t := before[t].(pending := 2,
                                            state := if before[t].state == Blocked then Ready else before[t].state)]
  }

  /** The running task t returned to user mode.  Without a pending signal nothing happened; SIGTERM entered its
      handler, if it has one and the return address could be stored, and the handler will not be entered again;
      otherwise the task has ended. */
  ghost predicate WasDelivered(before: Records, after: Records, first: Ptr, t: Ptr, to: Ptr, stored: bool) {
    && t in before
    && if before[t].pending == 0 then after == before && to == t
       else if before[t].pending == 2 && before[t].handler != 0 && stored then
         after == before[t := before[t].(pending := 0, handler := 0)] && to == t
       else t != first ==> HasLeft(before, after, first, t, to, 128 + before[t].pending)
  }

  /** Task t was inside waitpid for its child, and task `to` runs afterwards. */
  ghost predicate HasWaited(before: Records, after: Records, t: Ptr, child: Ptr, r: WaitResult, to: Ptr) {
    && t in before && child in before && before[child].parent == t
    && match r
       case NoChild => false
       case Exited(c, code) =>
         && c == child && before[child].state == Zombie && code == before[child].exitCode
         && after == before - {child} && to == t
       case Interrupted => before[child].state != Zombie && before[t].pending != 0 && after == before && to == t
       case Waiting =>
         && before[child].state != Zombie && before[t].pending == 0
         && HasSwitched(before[t := before[t].(state := Blocked)], after, t, to)
  }

  // ---------------------------------------------------------------- ending and turns

  lemma EndedRecord(c: Cols, d: Cols, first: Ptr, t: Ptr, code: int, u: Ptr)
    requires Kernel.Terminated(c, d, first, t, code) && t in RecordsOf(c) && c.parent[t] != t
    ensures u in RecordsOf(d) <==> u in RecordsOf(c)
    ensures u in RecordsOf(c) ==>
      var before, r := RecordsOf(c)[t], RecordsOf(c)[u];
      RecordsOf(d)[u] ==
        if u == t then r.(state := Zombie, exitCode := code, pending := 0)
        else r.(parent := if r.parent == t then first else r.parent,
                state := if u == before.parent && r.state == Blocked then Ready else r.state)
  {
    assert HasRecord(c, t) && c.parent[t] != t;
    assert HasRecord(d, u) <==> HasRecord(c, u);
  }

  // task_terminate, record by record.
  lemma Ending(c: Cols, d: Cols, heads: Memory, tables: Tables, first: Ptr, t: Ptr, code: int)
    requires KernelOk(c, heads, tables, first) && t in c.next && t != first && Kernel.Terminated(c, d, first, t, code)
    ensures HasEnded(RecordsOf(c), RecordsOf(d), first, t, code)
  {
    AllRecorded(c, heads, tables, first);
    Known(c, heads, tables, first, t);
    Kernel.FamilyFacts(c, heads, tables, first, t);
    forall u ensures u in RecordsOf(d) <==> u in RecordsOf(c) {
      EndedRecord(c, d, first, t, code, u);
    }
    EndedRecord(c, d, first, t, code, t);
    forall u | u in RecordsOf(c) && u != t
      ensures RecordsOf(d)[u] == RecordsOf(c)[u].(
        parent := if RecordsOf(c)[u].parent == t then first else RecordsOf(c)[u].parent,
        state := if u == RecordsOf(c)[t].parent && RecordsOf(c)[u].state == Blocked then Ready
                 else RecordsOf(c)[u].state)
    {
      EndedRecord(c, d, first, t, code, u);
    }
  }

  lemma SwitchedRecord(c: Cols, to: Ptr, u: Ptr)
    requires c.current in c.state && to in c.state
    ensures var d := SwitchedTo(c, to);
      && (u in RecordsOf(d) <==> u in RecordsOf(c))
      && (u in RecordsOf(c) ==>
            var r := RecordsOf(c)[u];
            RecordsOf(d)[u] == r.(state := if u == to then Running
                                           else if u == c.current && r.state == Running then Ready else r.state))
  {
    assert HasRecord(SwitchedTo(c, to), u) <==> HasRecord(c, u);
  }

  // sched, record by record.
  lemma Turning(c: Cols, to: Ptr)
    requires c.current in c.state && to in RecordsOf(c)
    ensures to in c.state && HasSwitched(RecordsOf(c), RecordsOf(SwitchedTo(c, to)), c.current, to)
  {
    assert HasRecord(c, to);
    forall u
      ensures u in RecordsOf(SwitchedTo(c, to)) <==> u in RecordsOf(c)
      ensures u in RecordsOf(c) ==>
        RecordsOf(SwitchedTo(c, to))[u] == RecordsOf(c)[u].(
          state := if u == to then Running
                   else if u == c.current && RecordsOf(c)[u].state == Running then Ready
                   else RecordsOf(c)[u].state)
    {
      SwitchedRecord(c, to, u);
    }
  }

  /** exit, and every other way in which the running task ends: just that has happened, and then one turn. */
  lemma Leaving(c: Cols, d: Cols, heads: Memory, tables: Tables, first: Ptr, t: Ptr, code: int)
    requires KernelOk(c, heads, tables, first) && t == c.current != first && d.current in c.next
    requires Kernel.EndedThenSwitched(c, d, first, t, code)
    ensures HasLeft(RecordsOf(c), RecordsOf(d), first, t, d.current, code)
  {
    var e :| Kernel.Terminated(c, e, first, t, code) && e.current in e.state && d == SwitchedTo(e, d.current);
    CurrentIsThere(c, heads, tables, first);
    Ending(c, e, heads, tables, first, t, code);
    AllRecorded(c, heads, tables, first);
    Turning(e, d.current);
  }

  lemma CurrentIsThere(c: Cols, heads: Memory, tables: Tables, first: Ptr)
    requires KernelOk(c, heads, tables, first)
    ensures c.current in c.next && HasRecord(c, c.current)
  {
    Unfold(c, heads, tables, first);
    Known(c, heads, tables, first, c.current);
  }

  // ---------------------------------------------------------------- signals

  lemma Noted(c: Cols, t: Ptr, sig: nat)
    requires t in RecordsOf(c) && t in c.state
    ensures var r := RecordsOf(c)[t];
      RecordsOf(c.(state := Kernel.Woken(c.state, t), pending := c.pending[t := sig])) ==
        RecordsOf(c)[t := r.(pending := sig, state := if r.state == Blocked then Ready else r.state)]
  {
    var d := c.(state := Kernel.Woken(c.state, t), pending := c.pending[t := sig]);
    assert HasRecord(c, t);
    forall u ensures HasRecord(d, u) <==> HasRecord(c, u) {
    }
  }

  /** signal_send, once it has found its target. */
  lemma Sending(c: Cols, d: Cols, heads: Memory, tables: Tables, first: Ptr, t: Ptr, sig: nat)
    requires KernelOk(c, heads, tables, first) && t in c.next && t != first && d.current in c.next
    requires sig == SIGKILL || sig == SIGTERM
    requires Kernel.Signalled(c, d, first, t, sig)
    ensures WasSent(RecordsOf(c), RecordsOf(d), first, t, sig, c.current, d.current)
  {
    AllRecorded(c, heads, tables, first);
    assert HasRecord(c, t);
    if sig == 1 || c.handler[t] == 0 {
      if t == c.current {
        Leaving(c, d, heads, tables, first, t, 128 + sig);
      } else {
        Ending(c, d, heads, tables, first, t, 128 + sig);
      }
    } else {
      Noted(c, t, sig);
    }
  }

  lemma Cleared(c: Cols)
    requires c.current in RecordsOf(c)
    ensures RecordsOf(c.(pending := c.pending[c.current := 0])) ==
            RecordsOf(c)[c.current := RecordsOf(c)[c.current].(pending := 0)]
  {
    assert HasRecord(c, c.current);
    forall u ensures HasRecord(c.(pending := c.pending[c.current := 0]), u) <==> HasRecord(c, u) {
    }
  }

  // That no signal is pending any more makes no difference to what ending leaves.
  lemma LeftAnyway(before: Records, after: Records, first: Ptr, t: Ptr, to: Ptr, code: int)
    requires t in before && HasLeft(before[t := before[t].(pending := 0)], after, first, t, to, code)
    ensures HasLeft(before, after, first, t, to, code)
  {
    var cleared := before[t := before[t].(pending := 0)];
    var mid :| HasEnded(cleared, mid, first, t, code) && HasSwitched(mid, after, t, to);
    assert HasEnded(before, mid, first, t, code) by {
      forall u | u in before && u != t ensures cleared[u] == before[u] {
      }
    }
  }

  lemma LeavingCleared(c: Cols, d: Cols, heads: Memory, tables: Tables, first: Ptr, code: int)
    requires KernelOk(c, heads, tables, first) && c.current != first && d.current in c.next
    requires c.current in c.state && c.state[c.current] != Zombie
    requires Kernel.EndedThenSwitched(c.(pending := c.pending[c.current := 0]), d, first, c.current, code)
    ensures HasLeft(RecordsOf(c), RecordsOf(d), first, c.current, d.current, code)
  {
    AllRecorded(c, heads, tables, first);
    CurrentIsThere(c, heads, tables, first);
    PendingOk(c, heads, tables, first, c.current, 0);
    Leaving(c.(pending := c.pending[c.current := 0]), d, heads, tables, first, c.current, code);
    Cleared(c);
    LeftAnyway(RecordsOf(c), RecordsOf(d), first, c.current, d.current, code);
  }

  lemma Handling(c: Cols, d: Cols, first: Ptr, stored: bool)
    requires Kernel.Delivered(c, d, first, stored) && Kernel.Handled(c, stored) && c.current in RecordsOf(c)
    ensures var r := RecordsOf(c)[c.current];
      && r.pending == 2 && r.handler != 0 && stored && d.current == c.current
      && RecordsOf(d) == RecordsOf(c)[c.current := r.(pending := 0, handler := 0)]
  {
    assert HasRecord(c, c.current);
    Kernel.ReplacedRecords(c, 0);
  }

  lemma NotHandling(c: Cols, d: Cols, heads: Memory, tables: Tables, first: Ptr, stored: bool)
    requires KernelOk(c, heads, tables, first) && d.current in c.next && Kernel.Delivered(c, d, first, stored)
    requires c.current in c.state && c.state[c.current] != Zombie && c.current != first
    requires c.pending[c.current] != 0 && !Kernel.Handled(c, stored)
    ensures HasLeft(RecordsOf(c), RecordsOf(d), first, c.current, d.current, 128 + c.pending[c.current])
  {
    LeavingCleared(c, d, heads, tables, first, 128 + c.pending[c.current]);
  }

  lemma PendingOfCurrent(c: Cols, heads: Memory, tables: Tables, first: Ptr)
    requires KernelOk(c, heads, tables, first)
    ensures c.current in c.pending && c.current in c.handler && c.current in RecordsOf(c)
    ensures var r := RecordsOf(c)[c.current]; r.pending == c.pending[c.current] && r.handler == c.handler[c.current]
  {
    AllRecorded(c, heads, tables, first);
    CurrentIsThere(c, heads, tables, first);
  }

  /** signal_check_user; `stored` says whether the handler's return address could be put on the stack. */
  lemma Delivering(c: Cols, d: Cols, heads: Memory, tables: Tables, first: Ptr, stored: bool)
    requires KernelOk(c, heads, tables, first) && d.current in c.next && Kernel.Delivered(c, d, first, stored)
    requires c.current in c.state && c.state[c.current] != Zombie
    ensures WasDelivered(RecordsOf(c), RecordsOf(d), first, c.current, d.current, stored)
  {
    PendingOfCurrent(c, heads, tables, first);
    if Kernel.Handled(c, stored) {
      Handling(c, d, first, stored);
    } else if c.pending[c.current] != 0 && c.current != first {
      NotHandling(c, d, heads, tables, first, stored);
    }
  }

  // ---------------------------------------------------------------- waitpid

  lemma ReapedRecord(c: Cols, d: Cols, t: Ptr, u: Ptr)
    requires Kernel.IsReaped(c, d, t)
    ensures HasRecord(d, u) <==> HasRecord(c, u) && u != t
    ensures u in RecordsOf(d) ==> u in RecordsOf(c) && RecordsOf(d)[u] == RecordsOf(c)[u]
  {
  }

  // task_reap, record by record.
  lemma Reaping(c: Cols, d: Cols, t: Ptr)
    requires Kernel.IsReaped(c, d, t)
    ensures RecordsOf(d) == RecordsOf(c) - {t}
  {
    forall u
      ensures u in RecordsOf(d) <==> u in RecordsOf(c) && u != t
      ensures u in RecordsOf(d) ==> RecordsOf(d)[u] == RecordsOf(c)[u]
    {
      ReapedRecord(c, d, t, u);
    }
  }

  lemma BlockedRecords(c: Cols, child: Ptr)
    requires c.current in RecordsOf(c)
    ensures RecordsOf(Blocking(c, child)) == RecordsOf(c)[c.current := RecordsOf(c)[c.current].(state := Blocked)]
  {
    assert HasRecord(c, c.current);
    forall u ensures HasRecord(Blocking(c, child), u) <==> HasRecord(c, u) {
    }
  }

  /** One turn of the loop in waitpid. */
  lemma Waiting(c: Cols, d: Cols, heads: Memory, tables: Tables, first: Ptr, child: Ptr, r: WaitResult)
    requires KernelOk(c, heads, tables, first) && d.current in c.next && Kernel.WaitMeans(c, d, child, r)
    requires child in c.next && child in c.parent && c.parent[child] == c.current
    ensures HasWaited(RecordsOf(c), RecordsOf(d), c.current, child, r, d.current)
  {
    AllRecorded(c, heads, tables, first);
    CurrentIsThere(c, heads, tables, first);
    assert HasRecord(c, child);
    var left := c.(awaited := Drop(c.awaited, c.current));
    assert RecordsOf(left) == RecordsOf(c) by {
      forall u ensures HasRecord(left, u) <==> HasRecord(c, u) {
      }
    }
    if r.Exited? {
      Reaping(left, d, child);
    } else if r.Waiting? {
      BlockedRecords(c, child);
      Turning(Blocking(c, child), d.current);
    }
  }

  /** The idle loop: what goes are the zombies whose parent is the kernel task, and they alone. */
  lemma ReapingOrphans(c: Cols, d: Cols, heads: Memory, tables: Tables, heads': Memory, tables': Tables, first: Ptr)
    requires KernelOk(c, heads, tables, first) && KernelOk(d, heads', tables', first)
    requires Kernel.OnlyOrphansGone(c, d, first) && forall t :: !Kernel.OrphanIn(d, first, t)
    ensures var r := RecordsOf(c);
      RecordsOf(d) ==
        map t | t in r && !(r[t].state == Zombie && r[t].parent == first && t != c.current && t != first) :: r[t]
  {
    AllRecorded(c, heads, tables, first);
    AllRecorded(d, heads', tables', first);
    forall t | t in d.next ensures t in RecordsOf(c) && RecordsOf(d)[t] == RecordsOf(c)[t] {
      assert Kernel.KeptTask(c, d, t) && HasRecord(c, t) && HasRecord(d, t);
    }
    forall t | t in d.next ensures !Kernel.OrphanIn(c, first, t) {
      assert Kernel.KeptTask(c, d, t) && !Kernel.OrphanIn(d, first, t);
    }
    forall t | t in c.next && t !in d.next ensures Kernel.OrphanIn(c, first, t) && HasRecord(c, t) {
    }
  }
}
