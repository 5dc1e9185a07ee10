/** What the states of the tasks say, and that each change of state keeps it so. */
module TaskStates {
  import opened IntrusiveList
  import opened RunQueue
  import opened Family

  // The fields that states depend on.  `awaited` says for a task inside waitpid which child it waits for.
  datatype Status = Status(parent: Parents, state: map<Ptr, State>, pending: map<Ptr, nat>, awaited: map<Ptr, Ptr>)

  predicate HasKeys<T>(m: map<Ptr, T>, live: set<Ptr>) {
    m.Keys == live
  }

  ghost predicate Complete(s: Status, lists: Lists, live: set<Ptr>) {
    HasKeys(s.parent, live) && HasKeys(s.state, live) && HasKeys(s.pending, live) && HasKeys(lists, live)
    && forall t :: t in s.awaited ==> t in live
  }

  ghost predicate StateOk(s: Status, lists: Lists, first: Ptr, current: Ptr, t: Ptr)
    requires t in s.state && t in s.parent && t in s.pending && t in lists
  {
    && s.state[t] != New
    && (t == first ==> (s.state[t] == Ready || s.state[t] == Running) && t !in s.awaited)
    && (t != first ==> s.parent[t] in s.state && s.state[s.parent[t]] != Zombie)
    && (s.state[t] == Zombie ==> |lists[t]| == 1 && t !in s.awaited && s.pending[t] == 0)
    && (s.state[t] == Running ==> t == current)
    && (t in s.awaited ==> s.awaited[t] in s.parent && s.parent[s.awaited[t]] == t && s.awaited[t] in s.state)
    && (s.state[t] == Blocked ==> t in s.awaited && s.state[s.awaited[t]] != Zombie && s.pending[t] == 0)
  }

  /** No task has a zombie parent; only the current task runs; a blocked task waits for a child of its own that is
      not a zombie, with no signal pending; a zombie has no children and waits for nothing. */
  ghost predicate StatesOk(s: Status, lists: Lists, live: set<Ptr>, first: Ptr, current: Ptr) {
    && Complete(s, lists, live)
    && forall t {:trigger StateOk(s, lists, first, current, t)} :: t in live ==> StateOk(s, lists, first, current, t)
  }

  // ---------------------------------------------------------------- changes of state

  // The task that ran is ready again, and the next one runs.
  function Switched(state: map<Ptr, State>, prev: Ptr, next: Ptr): map<Ptr, State>
    requires prev in state
  {
    (if state[prev] == Running then state[prev := Ready] else state)[next := Running]
  }

  lemma SchedStates(s: Status, lists: Lists, live: set<Ptr>, first: Ptr, prev: Ptr, next: Ptr)
    requires StatesOk(s, lists, live, first, prev) && prev in live && next in live
    requires next == first || s.state[next] == Ready || (next == prev && s.state[prev] == Running)
    ensures StatesOk(s.(state := Switched(s.state, prev, next)), lists, live, first, next)
  {
    assert Complete(s.(state := Switched(s.state, prev, next)), lists, live);
    forall t | t in live ensures StateOk(s.(state := Switched(s.state, prev, next)), lists, first, next, t) {
      SchedOne(s, lists, live, first, prev, next, t);
    }
  }

  lemma SchedOne(s: Status, lists: Lists, live: set<Ptr>, first: Ptr, prev: Ptr, next: Ptr, t: Ptr)
    requires StatesOk(s, lists, live, first, prev) && prev in live && next in live && t in live
    requires next == first || s.state[next] == Ready || (next == prev && s.state[prev] == Running)
    ensures StateOk(s.(state := Switched(s.state, prev, next)), lists, first, next, t)
  {
    assert StateOk(s, lists, first, prev, next);
    assert StateOk(s, lists, first, prev, t);
  }

  // The running task waits for its child c.
  lemma BlockStates(s: Status, lists: Lists, live: set<Ptr>, first: Ptr, current: Ptr, c: Ptr)
    requires StatesOk(s, lists, live, first, current) && current in live && current != first
    requires s.state[current] == Running
    requires c in live && s.parent[c] == current && s.state[c] != Zombie && s.pending[current] == 0
    ensures StatesOk(s.(state := s.state[current := Blocked], awaited := s.awaited[current := c]), lists, live, first,
                     current)
  {
    assert Complete(s.(state := s.state[current := Blocked], awaited := s.awaited[current := c]), lists, live);
    forall t | t in live
      ensures StateOk(s.(state := s.state[current := Blocked], awaited := s.awaited[current := c]), lists, first,
                      current, t)
    {
      BlockOne(s, lists, live, first, current, c, t);
    }
  }

  lemma BlockOne(s: Status, lists: Lists, live: set<Ptr>, first: Ptr, current: Ptr, c: Ptr, t: Ptr)
    requires StatesOk(s, lists, live, first, current) && current in live && current != first
    requires s.state[current] == Running
    requires c in live && s.parent[c] == current && s.state[c] != Zombie && s.pending[current] == 0 && t in live
    ensures StateOk(s.(state := s.state[current := Blocked], awaited := s.awaited[current := c]), lists, first, current,
                    t)
  {
    assert StateOk(s, lists, first, current, t);
  }

  // A blocked task wakes up; what it waits for stays on record until it runs again.
  lemma WakeStates(s: Status, lists: Lists, live: set<Ptr>, first: Ptr, current: Ptr, t: Ptr)
    requires StatesOk(s, lists, live, first, current) && t in live && s.state[t] == Blocked
    ensures StatesOk(s.(state := s.state[t := Ready]), lists, live, first, current)
  {
    var s' := s.(state := s.state[t := Ready]);
    forall u | u in live ensures StateOk(s', lists, first, current, u) {
      assert StateOk(s, lists, first, current, u) && StateOk(s, lists, first, current, t);
    }
  }

  // A task that is not blocked gets or loses a pending signal.
  lemma PendingStates(s: Status, lists: Lists, live: set<Ptr>, first: Ptr, current: Ptr, t: Ptr, sig: nat)
    requires StatesOk(s, lists, live, first, current) && t in live
    requires sig == 0 || (s.state[t] != Blocked && s.state[t] != Zombie)
    ensures StatesOk(s.(pending := s.pending[t := sig]), lists, live, first, current)
  {
    assert Complete(s.(pending := s.pending[t := sig]), lists, live);
    forall u | u in live ensures StateOk(s.(pending := s.pending[t := sig]), lists, first, current, u) {
      PendingOne(s, lists, live, first, current, t, sig, u);
    }
  }

  lemma PendingOne(s: Status, lists: Lists, live: set<Ptr>, first: Ptr, current: Ptr, t: Ptr, sig: nat, u: Ptr)
    requires StatesOk(s, lists, live, first, current) && t in live && u in live
    requires sig == 0 || (s.state[t] != Blocked && s.state[t] != Zombie)
    ensures StateOk(s.(pending := s.pending[t := sig]), lists, first, current, u)
  {
    assert StateOk(s, lists, first, current, u);
  }

  // A task leaves waitpid.
  lemma LeaveStates(s: Status, lists: Lists, live: set<Ptr>, first: Ptr, current: Ptr, t: Ptr)
    requires StatesOk(s, lists, live, first, current) && t in live && s.state[t] != Blocked
    ensures StatesOk(s.(awaited := Drop(s.awaited, t)), lists, live, first, current)
  {
    var s' := s.(awaited := Drop(s.awaited, t));
    forall u | u in live ensures StateOk(s', lists, first, current, u) {
      assert StateOk(s, lists, first, current, u);
    }
  }

  // ---------------------------------------------------------------- a task comes

  // What a task's state says depends on nothing but itself, its parent and the child it waits for.
  lemma SameTask(s: Status, s': Status, lists: Lists, lists': Lists, first: Ptr, current: Ptr, u: Ptr)
    requires u in s.state && u in s.parent && u in s.pending && u in lists && StateOk(s, lists, first, current, u)
    requires u in s'.state && u in s'.parent && u in s'.pending && u in lists'
    requires s'.state[u] == s.state[u] && s'.pending[u] == s.pending[u] && s'.parent[u] == s.parent[u]
    requires s'.awaited == s.awaited
    requires s.state[u] == Zombie ==> lists'[u] == lists[u]
    requires u != first ==> s.parent[u] in s'.state && s'.state[s.parent[u]] == s.state[s.parent[u]]
    requires u in s.awaited ==>
      var c := s.awaited[u]; c in s'.state && s'.state[c] == s.state[c] && c in s'.parent && s'.parent[c] == s.parent[c]
    ensures StateOk(s', lists', first, current, u)
  {
  }

  lemma NewStates(s: Status, lists: Lists, lists': Lists, live: set<Ptr>, first: Ptr, current: Ptr, p: Ptr, t: Ptr)
    requires StatesOk(s, lists, live, first, current) && t !in live && p in live && s.state[p] != Zombie
    requires first in live
    requires lists'.Keys == lists.Keys + {t}
    requires forall u :: u in lists && u != p ==> lists'[u] == lists[u]
    ensures StatesOk(Status(s.parent[t := p], s.state[t := Ready], s.pending[t := 0], s.awaited), lists', live + {t},
                     first, current)
  {
    var s' := Status(s.parent[t := p], s.state[t := Ready], s.pending[t := 0], s.awaited);
    assert Complete(s', lists', live + {t});
    forall u | u in live + {t} ensures StateOk(s', lists', first, current, u) {
      if u != t {
        NewOne(s, lists, lists', live, first, current, p, t, u);
      }
    }
  }

  lemma NewOne(s: Status, lists: Lists, lists': Lists, live: set<Ptr>, first: Ptr, current: Ptr, p: Ptr, t: Ptr, u: Ptr)
    requires StatesOk(s, lists, live, first, current) && t !in live && p in live && s.state[p] != Zombie
    requires first in live
    requires lists'.Keys == lists.Keys + {t} && u in live && (u != p ==> lists'[u] == lists[u])
    ensures StateOk(Status(s.parent[t := p], s.state[t := Ready], s.pending[t := 0], s.awaited), lists', first, current,
                    u)
  {
    assert StateOk(s, lists, first, current, u);
    SameTask(s, Status(s.parent[t := p], s.state[t := Ready], s.pending[t := 0], s.awaited), lists, lists', first,
             current, u);
  }

  // ---------------------------------------------------------------- a task ends

  // One child of t, which is about to end, gets the first task as its parent.
  lemma ReparentStates(s: Status, lists: Lists, lists': Lists, live: set<Ptr>, first: Ptr, current: Ptr, t: Ptr, c: Ptr)
    requires StatesOk(s, lists, live, first, current) && c in live && first in live && t in live && c != first
    requires s.parent[c] == t && c != t && t !in s.awaited && s.state[t] != Zombie
    requires lists'.Keys == lists.Keys
    requires forall u :: u in lists && u != t && u != first ==> lists'[u] == lists[u]
    ensures StatesOk(s.(parent := s.parent[c := first]), lists', live, first, current)
  {
    var s' := s.(parent := s.parent[c := first]);
    assert Complete(s', lists', live);
    forall u | u in live ensures StateOk(s', lists', first, current, u) {
      ReparentOne(s, lists, lists', live, first, current, t, c, u);
    }
  }

  lemma ReparentOne(s: Status, lists: Lists, lists': Lists, live: set<Ptr>, first: Ptr, current: Ptr, t: Ptr, c: Ptr,
                    u: Ptr)
    requires StatesOk(s, lists, live, first, current) && c in live && first in live && t in live && c != first
    requires s.parent[c] == t && c != t && t !in s.awaited && s.state[t] != Zombie
    requires lists'.Keys == lists.Keys && u in live
    requires u != t && u != first ==> lists'[u] == lists[u]
    ensures StateOk(s.(parent := s.parent[c := first]), lists', first, current, u)
  {
    assert StateOk(s, lists, first, current, first);
    assert StateOk(s, lists, first, current, u);
    ReparentOk(s, lists, lists', first, current, t, c, u);
  }

  lemma ReparentOk(s: Status, lists: Lists, lists': Lists, first: Ptr, current: Ptr, t: Ptr, c: Ptr, u: Ptr)
    requires u in s.state && u in s.parent && u in s.pending && u in lists && u in lists'
    requires StateOk(s, lists, first, current, u)
    requires c in s.parent && s.parent[c] == t && c != t && c != first && t !in s.awaited
    requires first in s.state && s.state[first] != Zombie
    requires s.state[u] == Zombie ==> lists'[u] == lists[u]
    ensures StateOk(s.(parent := s.parent[c := first]), lists', first, current, u)
  {
  }

  // A task without children ends; its parent, if blocked, wakes up.
  lemma ZombieStates(s: Status, lists: Lists, live: set<Ptr>, first: Ptr, current: Ptr, t: Ptr)
    requires StatesOk(s, lists, live, first, current) && t in live && t != first && s.state[t] != Zombie
    requires |lists[t]| == 1 && t !in s.awaited && s.pending[t] == 0
    requires forall u :: u in live && u != first ==> s.parent[u] != t
    ensures s.parent[t] in s.state && StatesOk(s.(state := Ended(s, t)), lists, live, first, current)
  {
    assert StateOk(s, lists, first, current, t);
    forall u | u in live ensures StateOk(s.(state := Ended(s, t)), lists, first, current, u) {
      ZombieOne(s, lists, live, first, current, t, u);
    }
  }

  lemma ZombieOne(s: Status, lists: Lists, live: set<Ptr>, first: Ptr, current: Ptr, t: Ptr, u: Ptr)
    requires StatesOk(s, lists, live, first, current) && t in live && t != first && s.state[t] != Zombie
    requires |lists[t]| == 1 && t !in s.awaited && s.pending[t] == 0
    requires u in live && (u != first ==> s.parent[u] != t) && s.parent[t] in s.state
    ensures StateOk(s.(state := Ended(s, t)), lists, first, current, u)
  {
    assert StateOk(s, lists, first, current, u);
    ZombieOk(s, lists, first, current, t, u);
  }

  // The states once t has ended, its parent woken.
  function Ended(s: Status, t: Ptr): map<Ptr, State>
    requires t in s.parent && s.parent[t] in s.state
  {
    var p := s.parent[t];
    (if s.state[p] == Blocked then s.state[p := Ready] else s.state)[t := Zombie]
  }

  lemma ZombieOk(s: Status, lists: Lists, first: Ptr, current: Ptr, t: Ptr, u: Ptr)
    requires u in s.state && u in s.parent && u in s.pending && u in lists && StateOk(s, lists, first, current, u)
    requires t in s.parent && s.parent[t] in s.state && t != first && t in s.state && s.state[t] != Zombie
    requires t in lists && |lists[t]| == 1 && t !in s.awaited && t in s.pending && s.pending[t] == 0
    requires u != first ==> s.parent[u] != t
    ensures StateOk(s.(state := Ended(s, t)), lists, first, current, u)
  {
  }

  // ---------------------------------------------------------------- a task goes

  lemma GoneStates(s: Status, lists: Lists, lists': Lists, live: set<Ptr>, first: Ptr, current: Ptr, t: Ptr)
    requires StatesOk(s, lists, live, first, current) && t in live && t != first && t != current && s.state[t] == Zombie
    requires lists'.Keys == lists.Keys - {t}
    requires forall u :: u in lists' && u != s.parent[t] ==> lists'[u] == lists[u]
    requires forall u :: u in live && u != first ==> s.parent[u] != t
    requires s.parent[t] in s.awaited ==> s.awaited[s.parent[t]] != t
    ensures StatesOk(Status(Drop(s.parent, t), Drop(s.state, t), Drop(s.pending, t), s.awaited), lists', live - {t},
                     first, current)
  {
    var s' := Status(Drop(s.parent, t), Drop(s.state, t), Drop(s.pending, t), s.awaited);
    assert StateOk(s, lists, first, current, t);
    assert Complete(s', lists', live - {t});
    forall u | u in live - {t} ensures StateOk(s', lists', first, current, u) {
      GoneOne(s, lists, lists', live, first, current, t, u);
    }
  }

  lemma GoneOne(s: Status, lists: Lists, lists': Lists, live: set<Ptr>, first: Ptr, current: Ptr, t: Ptr, u: Ptr)
    requires StatesOk(s, lists, live, first, current) && t in live && t != first && s.state[t] == Zombie
    requires lists'.Keys == lists.Keys - {t} && u in live && u != t && (u != s.parent[t] ==> lists'[u] == lists[u])
    requires u != first ==> s.parent[u] != t
    requires s.parent[t] in s.awaited ==> s.awaited[s.parent[t]] != t
    ensures StateOk(Status(Drop(s.parent, t), Drop(s.state, t), Drop(s.pending, t), s.awaited), lists', first, current,
                    u)
  {
    assert StateOk(s, lists, first, current, u);
    assert StateOk(s, lists, first, current, t);
    GoneOk(s, lists, lists', first, current, t, u);
  }

  lemma GoneOk(s: Status, lists: Lists, lists': Lists, first: Ptr, current: Ptr, t: Ptr, u: Ptr)
    requires u in s.state && u in s.parent && u in s.pending && u in lists && u in lists' && u != t
    requires StateOk(s, lists, first, current, u) && (u != first ==> s.parent[u] != t)
    requires t in s.parent && (s.parent[t] in s.awaited ==> s.awaited[s.parent[t]] != t)
    requires s.state[u] == Zombie ==> lists'[u] == lists[u]
    ensures StateOk(Status(Drop(s.parent, t), Drop(s.state, t), Drop(s.pending, t), s.awaited), lists', first, current,
                    u)
  {
  }
}
