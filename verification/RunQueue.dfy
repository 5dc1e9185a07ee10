/** The ring of tasks, and who runs next.

    Position 0 of the ring is the kernel task, which runs only when nothing else can. */
module RunQueue {
  import opened IntrusiveList

  const MAX_TASKS: nat := 32

  datatype State = Ready | Running | Blocked | Zombie | New

  type Ring = seq<Ptr>

  predicate Apart(ring: Ring, i: nat, j: nat)
    requires i < |ring| && j < |ring|
  {
    i != j ==> ring[i] != ring[j]
  }

  predicate AllApart(ring: Ring) {
    forall i: nat, j: nat {:trigger Apart(ring, i, j)} :: i < |ring| && j < |ring| ==> Apart(ring, i, j)
  }

  predicate Chained(next: map<Ptr, Ptr>, ring: Ring, i: nat)
    requires i < |ring|
  {
    ring[i] in next && next[ring[i]] == ring[After(|ring|, i)]
  }

  /** Following `next` from the first task leads through the whole ring, each task once, and back. */
  ghost predicate IsRing(next: map<Ptr, Ptr>, ring: Ring) {
    && |ring| > 0 && AllApart(ring)
    && forall i: nat {:trigger Chained(next, ring, i)} :: i < |ring| ==> Chained(next, ring, i)
  }

  function Inserted(ring: Ring, x: Ptr): Ring
    requires |ring| > 0
  {
    [ring[0], x] + ring[1..]
  }

  lemma InsertedApart(ring: Ring, x: Ptr)
    requires |ring| > 0 && AllApart(ring) && x !in ring
    ensures AllApart(Inserted(ring, x))
  {
    var more := Inserted(ring, x);
    forall i: nat, j: nat | i < |more| && j < |more| ensures Apart(more, i, j) {
      if i != 1 && j != 1 {
        assert Apart(ring, if i > 1 then i - 1 else 0, if j > 1 then j - 1 else 0);
      }
    }
  }

  lemma InsertedRing(next: map<Ptr, Ptr>, ring: Ring, x: Ptr)
    requires IsRing(next, ring) && x !in ring
    ensures Chained(next, ring, 0)
    ensures IsRing(next[x := next[ring[0]]][ring[0] := x], Inserted(ring, x))
  {
    var more := Inserted(ring, x);
    assert Chained(next, ring, 0);
    var next' := next[x := next[ring[0]]][ring[0] := x];
    InsertedApart(ring, x);
    forall i: nat | i < |more| ensures Chained(next', more, i) {
      if i > 1 {
        assert Chained(next, ring, i - 1) && Apart(ring, 0, i - 1);
      }
    }
  }

  lemma RemovedApart(ring: Ring, k: nat)
    requires AllApart(ring) && k < |ring|
    ensures AllApart(Without(ring, k)) && ring[k] !in Without(ring, k)
  {
    var less := Without(ring, k);
    forall i: nat, j: nat | i < |less| && j < |less| ensures Apart(less, i, j) {
      assert Apart(ring, if i < k then i else i + 1, if j < k then j else j + 1);
    }
    forall i: nat | i < |less| ensures less[i] != ring[k] {
      assert Apart(ring, if i < k then i else i + 1, k);
    }
  }

  lemma RemovedRing(next: map<Ptr, Ptr>, ring: Ring, k: nat)
    requires IsRing(next, ring) && 0 < k < |ring|
    ensures Chained(next, ring, k)
    ensures IsRing(next[ring[k - 1] := next[ring[k]]], Without(ring, k))
  {
    var less := Without(ring, k);
    assert Chained(next, ring, k) && Apart(ring, k - 1, k);
    var next' := next[ring[k - 1] := next[ring[k]]];
    RemovedApart(ring, k);
    forall i: nat | i < |less| ensures Chained(next', less, i) {
      var j := if i < k then i else i + 1;
      assert Chained(next, ring, j) && Apart(ring, j, k - 1);
    }
  }

  lemma RingKept(next: map<Ptr, Ptr>, next': map<Ptr, Ptr>, ring: Ring)
    requires IsRing(next, ring)
    requires forall t :: t in ring ==> t in next && t in next' && next'[t] == next[t]
    ensures IsRing(next', ring)
  {
    forall i: nat | i < |ring| ensures Chained(next', ring, i) {
      assert Chained(next, ring, i);
    }
  }

  lemma OnePosition(ring: Ring, i: nat, j: nat)
    requires AllApart(ring) && i < |ring| && j < |ring| && ring[i] == ring[j]
    ensures i == j
  {
    assert Apart(ring, i, j);
  }

  // ---------------------------------------------------------------- who runs next

  // The task at position i may be chosen.
  predicate CanRun(ring: Ring, ready: set<Ptr>, i: nat)
    requires i < |ring|
  {
    i != 0 && ring[i] in ready
  }

  // Position j steps on from position i, round the ring.
  function Ahead(n: nat, i: nat, j: nat): nat {
    if i + j < n then i + j else i + j - n
  }

  /** The first task behind position i, round the ring and i itself last, that may be chosen; else the kernel task. */
  ghost predicate IsNext(ring: Ring, ready: set<Ptr>, i: nat, p: nat) {
    && i < |ring| && p < |ring|
    && (if p == 0 then forall q: nat :: q < |ring| ==> !CanRun(ring, ready, q)
        else CanRun(ring, ready, p) && FirstAhead(ring, ready, i, p))
  }

  ghost predicate FirstAhead(ring: Ring, ready: set<Ptr>, i: nat, p: nat)
    requires i < |ring|
  {
    exists d: nat :: 1 <= d <= |ring| && Ahead(|ring|, i, d) == p && NoneAhead(ring, ready, i, d)
  }

  // No task less than d steps ahead may be chosen.
  ghost predicate NoneAhead(ring: Ring, ready: set<Ptr>, i: nat, d: nat)
    requires i < |ring| && d <= |ring| + 1
  {
    forall e: nat {:trigger Ahead(|ring|, i, e)} :: 1 <= e < d ==> !CanRun(ring, ready, Ahead(|ring|, i, e))
  }

  lemma AllAhead(ring: Ring, ready: set<Ptr>, i: nat, q: nat)
    requires i < |ring| && q < |ring| && NoneAhead(ring, ready, i, |ring| + 1)
    ensures !CanRun(ring, ready, q)
  {
    var d := if q > i then q - i else q + |ring| - i;
    assert Ahead(|ring|, i, d) == q;
  }

  // ---------------------------------------------------------------- bounded waiting

  // How long the task at position t may still have to wait while the one at c runs.
  function Wait(n: nat, c: nat, t: nat): int {
    if c < t then t - c else MAX_TASKS + n - c
  }

  /** Each call of sched brings a task that stays ready closer to being chosen. */
  lemma SchedBringsCloser(ring: Ring, ready: set<Ptr>, c: nat, t: nat, p: nat)
    requires |ring| <= MAX_TASKS && IsNext(ring, ready, c, p) && 0 < t < |ring| && ring[t] in ready
    ensures 0 < p && (p == t || 0 < Wait(|ring|, p, t) < Wait(|ring|, c, t))
  {
    assert CanRun(ring, ready, t);
    if p != t {
      var d: nat :| 1 <= d <= |ring| && Ahead(|ring|, c, d) == p && NoneAhead(ring, ready, c, d);
      var e := if t > c then t - c else t + |ring| - c;
      assert Ahead(|ring|, c, e) == t;
    }
  }

  /** A new task is put right behind the kernel task, and makes nobody wait longer while another task runs. */
  lemma InsertKeepsWait(ring: Ring, x: Ptr, c: nat, t: nat)
    requires 0 < c < |ring| && 0 < t < |ring|
    ensures Inserted(ring, x)[c + 1] == ring[c] && Inserted(ring, x)[t + 1] == ring[t]
    ensures Wait(|ring| + 1, c + 1, t + 1) == Wait(|ring|, c, t)
  {
  }

  function Shifted(k: nat, i: nat): nat {
    if i > k then i - 1 else i
  }

  /** Nor does it make anybody wait longer when a third task is removed. */
  lemma RemoveKeepsWait(ring: Ring, k: nat, c: nat, t: nat)
    requires 0 < k < |ring| && c < |ring| && t < |ring| && c != k && t != k
    ensures Without(ring, k)[Shifted(k, c)] == ring[c] && Without(ring, k)[Shifted(k, t)] == ring[t]
    ensures Wait(|ring| - 1, Shifted(k, c), Shifted(k, t)) <= Wait(|ring|, c, t)
  {
  }

  // What the scheduler sees: the ring, which task runs, which tasks are ready, and how often it has been called.
  datatype View = View(ring: Ring, current: Ptr, ready: set<Ptr>, turns: nat)

  ghost predicate ViewOk(v: View) {
    0 < |v.ring| <= MAX_TASKS && AllApart(v.ring) && v.current in v.ring
  }

  /** One call of sched: of those that were ready, and the task that ran unless it sleeps or has ended, the next one
      runs now, and the others are ready. */
  ghost predicate SchedStep(v: View, w: View) {
    && ViewOk(v) && ViewOk(w) && w.ring == v.ring && w.turns == v.turns + 1
    && exists c: nat, p: nat, ready: set<Ptr> ::
         && c < |v.ring| && v.ring[c] == v.current
         && v.ready <= ready <= v.ready + {v.current} && IsNext(v.ring, ready, c, p)
         && w.current == v.ring[p] && w.ready == ready - {w.current}
  }

  // Between two calls of sched tasks come and go, but not the running one.
  ghost predicate OtherStep(v: View, w: View) {
    && ViewOk(v) && ViewOk(w) && w.current == v.current && w.turns == v.turns
    && (w.ring == v.ring || Grows(v, w) || Shrinks(v, w))
  }

  ghost predicate Grows(v: View, w: View)
    requires |v.ring| > 0
  {
    exists x :: x !in v.ring && w.ring == Inserted(v.ring, x)
  }

  ghost predicate Shrinks(v: View, w: View) {
    exists k: nat :: 0 < k < |v.ring| && v.ring[k] != v.current && w.ring == Without(v.ring, k)
  }

  // Task t is ready, and another one runs.
  ghost predicate WaitsIn(v: View, t: Ptr) {
    ViewOk(v) && t in v.ring[1..] && t in v.ready && v.current != t
  }

  lemma PositionOf(ring: Ring, t: Ptr) returns (p: nat)
    requires t in ring
    ensures p < |ring| && ring[p] == t
  {
    p :| p < |ring| && ring[p] == t;
  }

  // The waiting time that is left.  Until the kernel task first calls sched new tasks may still come in between;
  // later, as long as anybody is ready, it is not the kernel task that runs.
  ghost function Left(v: View, t: Ptr): int
    requires ViewOk(v) && t in v.ring
  {
    var c: nat :| c < |v.ring| && v.ring[c] == v.current;
    var p: nat :| p < |v.ring| && v.ring[p] == t;
    Budget(|v.ring|, c, p)
  }

  function Budget(n: nat, c: nat, t: nat): int {
    if c == 0 then MAX_TASKS else Wait(n, c, t)
  }

  lemma LeftIs(v: View, t: Ptr, c: nat, p: nat)
    requires ViewOk(v) && t in v.ring && c < |v.ring| && p < |v.ring| && v.ring[c] == v.current && v.ring[p] == t
    ensures Left(v, t) == Budget(|v.ring|, c, p)
  {
    forall d: nat | d < |v.ring| && v.ring[d] == v.current ensures d == c {
      OnePosition(v.ring, c, d);
    }
    forall q: nat | q < |v.ring| && v.ring[q] == t ensures q == p {
      OnePosition(v.ring, p, q);
    }
  }

  lemma LeftBound(v: View, t: Ptr)
    requires WaitsIn(v, t)
    ensures 0 < Left(v, t) < 2 * MAX_TASKS
  {
    var c := PositionOf(v.ring, v.current);
    var q := PositionOf(v.ring[1..], t);
    assert v.ring[q + 1] == t;
    LeftIs(v, t, c, q + 1);
  }

  lemma SchedStepCloser(v: View, w: View, t: Ptr)
    requires SchedStep(v, w) && WaitsIn(v, t) && WaitsIn(w, t)
    ensures Left(w, t) < Left(v, t)
  {
    var c: nat, p: nat, ready: set<Ptr> :|
      && c < |v.ring| && v.ring[c] == v.current
      && v.ready <= ready <= v.ready + {v.current} && IsNext(v.ring, ready, c, p)
      && w.current == v.ring[p] && w.ready == ready - {w.current};
    var q := PositionOf(v.ring[1..], t);
    assert v.ring[q + 1] == t;
    SchedBringsCloser(v.ring, ready, c, q + 1, p);
    LeftIs(v, t, c, q + 1);
    LeftIs(w, t, p, q + 1);
  }

  lemma ShrinkKeeps(v: View, w: View, t: Ptr, k: nat, c: nat, p: nat)
    requires ViewOk(v) && ViewOk(w) && w.current == v.current && t in w.ring
    requires 0 < k < |v.ring| && v.ring[k] != v.current && w.ring == Without(v.ring, k)
    requires c < |v.ring| && v.ring[c] == v.current && p < |v.ring| && v.ring[p] == t
    ensures Left(w, t) <= Budget(|v.ring|, c, p)
  {
    RemovedApart(v.ring, k);
    RemoveKeepsWait(v.ring, k, c, p);
    LeftIs(w, t, Shifted(k, c), Shifted(k, p));
  }

  lemma GrowKeeps(v: View, w: View, t: Ptr, x: Ptr, c: nat, p: nat)
    requires ViewOk(v) && ViewOk(w) && w.current == v.current && t in w.ring
    requires w.ring == Inserted(v.ring, x)
    requires c < |v.ring| && v.ring[c] == v.current && 0 < p < |v.ring| && v.ring[p] == t
    ensures Left(w, t) <= Budget(|v.ring|, c, p)
  {
    if c > 0 {
      InsertKeepsWait(v.ring, x, c, p);
      LeftIs(w, t, c + 1, p + 1);
    } else {
      assert w.ring[p + 1] == t;
      LeftIs(w, t, 0, p + 1);
    }
  }

  lemma OtherStepKeeps(v: View, w: View, t: Ptr)
    requires OtherStep(v, w) && WaitsIn(v, t) && WaitsIn(w, t)
    ensures Left(w, t) <= Left(v, t)
  {
    var c := PositionOf(v.ring, v.current);
    var q := PositionOf(v.ring[1..], t);
    var p := q + 1;
    assert v.ring[p] == t;
    LeftIs(v, t, c, p);
    if w.ring == v.ring {
      LeftIs(w, t, c, p);
    } else if Grows(v, w) {
      var x :| x !in v.ring && w.ring == Inserted(v.ring, x);
      GrowKeeps(v, w, t, x, c, p);
    } else {
      var k: nat :| 0 < k < |v.ring| && v.ring[k] != v.current && w.ring == Without(v.ring, k);
      ShrinkKeeps(v, w, t, k, c, p);
    }
  }

  // ---------------------------------------------------------------- runs

  /** From v to w sched was called `calls` times, and each call has brought everybody who waited before and still waits
      closer to being chosen. */
  ghost predicate Passes(v: View, w: View, calls: nat) {
    && ViewOk(v) && ViewOk(w) && w.turns == v.turns + calls
    && forall t {:trigger WaitsIn(w, t)} :: WaitsIn(v, t) && WaitsIn(w, t) ==> calls + Left(w, t) <= Left(v, t)
  }

  lemma NothingPasses(v: View)
    requires ViewOk(v)
    ensures Passes(v, v, 0)
  {
  }

  lemma OtherPasses(v: View, w: View)
    requires OtherStep(v, w)
    ensures Passes(v, w, 0)
  {
    forall t | WaitsIn(v, t) && WaitsIn(w, t) ensures Left(w, t) <= Left(v, t) {
      OtherStepKeeps(v, w, t);
    }
  }

  lemma SchedPasses(v: View, w: View)
    requires SchedStep(v, w)
    ensures Passes(v, w, 1)
  {
    forall t | WaitsIn(v, t) && WaitsIn(w, t) ensures 1 + Left(w, t) <= Left(v, t) {
      SchedStepCloser(v, w, t);
    }
  }

  // Who is ready after a call of sched was so before, unless it ran.
  lemma ReadyBefore(v: View, w: View, t: Ptr)
    requires SchedStep(v, w) && WaitsIn(w, t) && t != v.current
    ensures WaitsIn(v, t)
  {
  }

  /** A step that ends with a call of sched. */
  lemma ThenSched(v: View, u: View, w: View, calls: nat)
    requires Passes(v, u, calls) && u.current == v.current && SchedStep(u, w)
    ensures Passes(v, w, calls + 1)
  {
    forall t | WaitsIn(v, t) && WaitsIn(w, t) ensures calls + 1 + Left(w, t) <= Left(v, t) {
      ReadyBefore(u, w, t);
      SchedStepCloser(u, w, t);
    }
  }

  // One after the other, if nobody is ready at both ends that was not ready in between.
  lemma PassesTrans(v: View, u: View, w: View, a: nat, b: nat)
    requires Passes(v, u, a) && Passes(u, w, b)
    requires forall t {:trigger WaitsIn(w, t)} :: WaitsIn(v, t) && WaitsIn(w, t) ==> WaitsIn(u, t)
    ensures Passes(v, w, a + b)
  {
  }

  /** What was seen between the steps of a run, each with some number of calls of sched. */
  ghost predicate History(seen: seq<View>) {
    |seen| > 0 && forall i: nat {:trigger Onward(seen, i)} :: i + 1 < |seen| ==> Onward(seen, i)
  }

  ghost predicate Onward(seen: seq<View>, i: nat)
    requires i + 1 < |seen|
  {
    seen[i].turns <= seen[i + 1].turns && Passes(seen[i], seen[i + 1], seen[i + 1].turns - seen[i].turns)
  }

  lemma HistoryOn(seen: seq<View>, v: View, calls: nat)
    requires History(seen) && Passes(seen[|seen| - 1], v, calls)
    ensures History(seen + [v])
  {
    var seen' := seen + [v];
    forall i: nat | i + 1 < |seen'| ensures Onward(seen', i) {
      assert i + 1 < |seen| ==> Onward(seen, i);
    }
  }

  lemma HistorySuffix(seen: seq<View>, n: nat)
    requires History(seen) && n < |seen|
    ensures History(seen[n..])
  {
    forall i: nat | i + 1 < |seen| - n ensures Onward(seen[n..], i) {
      assert Onward(seen, n + i);
    }
  }

  // Task t is ready whenever a step is over, and has not been chosen.
  ghost predicate Waits(seen: seq<View>, t: Ptr) {
    forall i: nat {:trigger seen[i]} :: i < |seen| ==> WaitsIn(seen[i], t)
  }

  lemma {:induction false} TurnsUseUpWait(seen: seq<View>, t: Ptr, n: nat)
    requires History(seen) && Waits(seen, t) && n < |seen|
    ensures WaitsIn(seen[0], t) && WaitsIn(seen[n], t)
    ensures seen[n].turns - seen[0].turns + Left(seen[n], t) <= Left(seen[0], t)
  {
    assert WaitsIn(seen[0], t) && WaitsIn(seen[n], t);
    if n > 0 {
      TurnsUseUpWait(seen, t, n - 1);
      assert Onward(seen, n - 1);
    }
  }

  /** Bounded waiting: a task that stays ready is chosen before sched has been called 2 * MAX_TASKS times, however
      many tasks are made or reaped meanwhile. */
  lemma BoundedWaiting(seen: seq<View>, t: Ptr)
    requires History(seen) && Waits(seen, t)
    ensures seen[|seen| - 1].turns - seen[0].turns < 2 * MAX_TASKS
  {
    TurnsUseUpWait(seen, t, |seen| - 1);
    LeftBound(seen[0], t);
    LeftBound(seen[|seen| - 1], t);
  }
}
