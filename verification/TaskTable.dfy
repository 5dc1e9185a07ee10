/** The table of tasks, tasks[MAX_TASKS]: it holds each task of the ring once. */
module TaskTable {
  import opened IntrusiveList
  import opened RunQueue

  // How many of the first n slots are taken.
  function Taken(slots: seq<Ptr>, n: nat): nat
    requires n <= |slots|
  {
    if n == 0 then 0 else Taken(slots, n - 1) + (if slots[n - 1] != 0 then 1 else 0)
  }

  predicate SlotApart(slots: seq<Ptr>, i: nat, j: nat)
    requires i < |slots| && j < |slots|
  {
    i != j && slots[i] != 0 ==> slots[i] != slots[j]
  }

  ghost predicate TableOk(slots: seq<Ptr>, ring: Ring) {
    && |slots| == MAX_TASKS && |ring| > 0 && slots[0] == ring[0] && 0 !in ring
    && (forall i: nat, j: nat {:trigger SlotApart(slots, i, j)} ::
          i < MAX_TASKS && j < MAX_TASKS ==> SlotApart(slots, i, j))
    && (forall i {:trigger slots[i]} :: 0 <= i < MAX_TASKS && slots[i] != 0 ==> slots[i] in ring)
    && (forall t :: t in ring ==> t in slots)
    && Taken(slots, MAX_TASKS) == |ring|
  }

  lemma {:induction false} TakenBound(slots: seq<Ptr>, n: nat, i: nat)
    requires n <= |slots|
    ensures Taken(slots, n) <= n
    ensures i < n && slots[i] == 0 ==> Taken(slots, n) < n
  {
    if n > 0 {
      TakenBound(slots, n - 1, i);
    }
  }

  function SetSlot(slots: seq<Ptr>, i: nat, x: Ptr): (r: seq<Ptr>)
    requires i < |slots|
    ensures |r| == |slots|
  {
    slots[i := x]
  }

  lemma {:induction false} TakenSet(slots: seq<Ptr>, i: nat, x: Ptr, n: nat)
    requires i < |slots| && n <= |slots|
    ensures Taken(SetSlot(slots, i, x), n) ==
      Taken(slots, n) + (if i < n then (if x != 0 then 1 else 0) - (if slots[i] != 0 then 1 else 0) else 0)
  {
    if n > 0 {
      TakenSet(slots, i, x, n - 1);
    }
  }

  lemma RingFits(slots: seq<Ptr>, ring: Ring)
    requires TableOk(slots, ring)
    ensures |ring| <= MAX_TASKS
  {
    TakenBound(slots, MAX_TASKS, 0);
  }

  lemma InsertTable(slots: seq<Ptr>, ring: Ring, i: nat, x: Ptr)
    requires TableOk(slots, ring) && i < MAX_TASKS && slots[i] == 0 && x != 0 && x !in ring
    ensures TableOk(SetSlot(slots, i, x), Inserted(ring, x))
  {
    var slots', ring' := SetSlot(slots, i, x), Inserted(ring, x);
    TakenSet(slots, i, x, MAX_TASKS);
    forall j: nat, k: nat | j < MAX_TASKS && k < MAX_TASKS ensures SlotApart(slots', j, k) {
      assert SlotApart(slots, j, k);
    }
    forall t | t in ring ensures t in ring' && t in slots' {
      InInserted(ring, x, t);
      var j :| 0 <= j < |slots| && slots[j] == t;
      assert slots'[j] == t;
    }
    InInserted(ring, x, x);
    assert slots'[i] == x;
    forall t | t in ring' ensures t in slots' {
      InInserted(ring, x, t);
    }
  }

  lemma InInserted(ring: Ring, x: Ptr, t: Ptr)
    requires |ring| > 0
    ensures t in Inserted(ring, x) <==> t == x || t in ring
  {
    var more := Inserted(ring, x);
    assert more[0] == ring[0] && more[1] == x;
    if t in ring {
      var i :| 0 <= i < |ring| && ring[i] == t;
      assert more[if i == 0 then 0 else i + 1] == t;
    }
    if t in more {
      var i :| 0 <= i < |more| && more[i] == t;
      assert i > 1 ==> t == ring[i - 1];
    }
  }

  lemma InWithout(ring: Ring, k: nat, t: Ptr)
    requires AllApart(ring) && k < |ring|
    ensures t in Without(ring, k) <==> t in ring && t != ring[k]
  {
    var less := Without(ring, k);
    RemovedApart(ring, k);
    if t in less {
      var i :| 0 <= i < |less| && less[i] == t;
      assert t == ring[if i < k then i else i + 1];
    }
    if t in ring && t != ring[k] {
      var i :| 0 <= i < |ring| && ring[i] == t;
      assert less[if i < k then i else i - 1] == t;
    }
  }

  lemma RemoveTable(slots: seq<Ptr>, ring: Ring, i: nat, k: nat)
    requires TableOk(slots, ring) && AllApart(ring) && i < MAX_TASKS && 0 < k < |ring| && slots[i] == ring[k]
    ensures i > 0
    ensures TableOk(SetSlot(slots, i, 0), Without(ring, k))
  {
    var slots', ring' := SetSlot(slots, i, 0), Without(ring, k);
    assert Apart(ring, 0, k);
    assert ring[k] in ring;
    TakenSet(slots, i, 0, MAX_TASKS);
    InWithout(ring, k, 0);
    forall j: nat, l: nat | j < MAX_TASKS && l < MAX_TASKS ensures SlotApart(slots', j, l) {
      assert SlotApart(slots, j, l);
    }
    forall j: nat | j < MAX_TASKS && slots'[j] != 0 ensures slots'[j] in ring' {
      assert SlotApart(slots, j, i);
      InWithout(ring, k, slots[j]);
    }
    forall t | t in ring' ensures t in slots' {
      InWithout(ring, k, t);
      var j :| 0 <= j < |slots| && slots[j] == t;
      assert slots'[j] == t;
    }
  }
}
