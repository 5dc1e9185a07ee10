/** Circular doubly linked lists whose links lie inside the listed objects. */
module IntrusiveList {

  type Ptr = nat  // the address of a task; 0 is NULL

  // The address of a list head: NULL, or one of the two inside a task.
  datatype Head = Null | ChildrenOf(task: Ptr) | SiblingOf(task: Ptr)

  datatype Links = Links(next: Head, prev: Head)

  type Memory = map<Head, Links>

  function After(n: nat, i: nat): nat {
    if i + 1 < n then i + 1 else 0
  }

  function Before(n: nat, i: nat): nat {
    if i > 0 then i - 1 else if n > 0 then n - 1 else 0
  }

  // Element i of the cycle is linked to its two neighbours.
  predicate Joined(heads: Memory, cycle: seq<Head>, i: nat)
    requires i < |cycle|
  {
    cycle[i] in heads && heads[cycle[i]] == Links(cycle[After(|cycle|, i)], cycle[Before(|cycle|, i)])
  }

  predicate Different(cycle: seq<Head>, i: nat, j: nat)
    requires i < |cycle| && j < |cycle|
  {
    i != j ==> cycle[i] != cycle[j]
  }

  /** The heads of the cycle, and no others, are linked to each other in this order. */
  ghost predicate IsList(heads: Memory, cycle: seq<Head>) {
    && |cycle| > 0
    && (forall i: nat {:trigger Joined(heads, cycle, i)} :: i < |cycle| ==> Joined(heads, cycle, i))
    && (forall i: nat, j: nat {:trigger Different(cycle, i, j)} ::
          i < |cycle| && j < |cycle| ==> Different(cycle, i, j))
  }

  // The sequence without element i.
  function Without<T>(s: seq<T>, i: nat): (r: seq<T>)
    requires i < |s|
    ensures |r| == |s| - 1
  {
    s[..i] + s[i + 1..]
  }

  // A list is not touched by changes to other heads.
  lemma ListKept(heads: Memory, heads': Memory, cycle: seq<Head>)
    requires IsList(heads, cycle)
    requires forall h :: h in cycle ==> h in heads && h in heads' && heads'[h] == heads[h]
    ensures IsList(heads', cycle)
  {
    forall i: nat | i < |cycle| ensures Joined(heads', cycle, i) {
      assert Joined(heads, cycle, i);
    }
  }

  lemma AddedDifferent(cycle: seq<Head>, node: Head)
    requires forall i: nat, j: nat {:trigger Different(cycle, i, j)} :: i < |cycle| && j < |cycle| ==>
      Different(cycle, i, j)
    requires node !in cycle
    ensures var more := cycle + [node];
      forall i: nat, j: nat {:trigger Different(more, i, j)} :: i < |more| && j < |more| ==> Different(more, i, j)
  {
    var more := cycle + [node];
    forall i: nat, j: nat | i < |more| && j < |more| ensures Different(more, i, j) {
      if i < |cycle| && j < |cycle| {
        assert Different(cycle, i, j);
      }
    }
  }

  lemma RemovedDifferent(cycle: seq<Head>, k: nat)
    requires forall i: nat, j: nat {:trigger Different(cycle, i, j)} :: i < |cycle| && j < |cycle| ==>
      Different(cycle, i, j)
    requires k < |cycle|
    ensures var less := Without(cycle, k);
      forall i: nat, j: nat {:trigger Different(less, i, j)} :: i < |less| && j < |less| ==> Different(less, i, j)
    ensures cycle[k] !in Without(cycle, k)
  {
    var less := Without(cycle, k);
    forall i: nat, j: nat | i < |less| && j < |less| ensures Different(less, i, j) {
      assert Different(cycle, if i < k then i else i + 1, if j < k then j else j + 1);
    }
    forall i: nat | i < |less| ensures less[i] != cycle[k] {
      assert Different(cycle, if i < k then i else i + 1, k);
    }
  }

  function Drop<T>(m: map<Ptr, T>, t: Ptr): map<Ptr, T> {
    map u | u in m && u != t :: m[u]
  }

  function DropHeads(heads: Memory, t: Ptr): Memory {
    map h | h in heads && h != ChildrenOf(t) && h != SiblingOf(t) :: heads[h]
  }

  // The four writes of list_add_tail.
  function AddTail(heads: Memory, node: Head, head: Head): Memory
    requires head in heads
  {
    var prev := heads[head].prev;
    var h1 := heads[node := Links(head, prev)];
    var h2 := if prev in h1 then h1[prev := h1[prev].(next := node)] else h1;
    if head in h2 then h2[head := h2[head].(prev := node)] else h2
  }

  lemma AddTailMeans(heads: Memory, cycle: seq<Head>, node: Head)
    requires IsList(heads, cycle) && node !in cycle
    ensures Joined(heads, cycle, 0) && IsList(AddTail(heads, node, cycle[0]), cycle + [node])
    ensures forall h :: h !in cycle && h != node ==>
      && (h in AddTail(heads, node, cycle[0]) <==> h in heads)
      && (h in heads ==> AddTail(heads, node, cycle[0])[h] == heads[h])
  {
    var n := |cycle|;
    var more := cycle + [node];
    assert Joined(heads, cycle, 0) && Joined(heads, cycle, n - 1);
    var heads' := AddTail(heads, node, cycle[0]);
    AddedDifferent(cycle, node);
    forall i: nat | i < |more| ensures Joined(heads', more, i) {
      if i < n {
        assert Joined(heads, cycle, i) && Different(cycle, i, 0) && Different(cycle, i, n - 1);
      }
    }
  }

  // The writes of list_del.
  function Del(heads: Memory, entry: Head): Memory
    requires entry in heads
  {
    var e := heads[entry];
    var h1 := if e.next in heads then heads[e.next := heads[e.next].(prev := e.prev)] else heads;
    var h2 := if e.prev in h1 then h1[e.prev := h1[e.prev].(next := e.next)] else h1;
    h2[entry := Links(Null, Null)]
  }

  lemma DelMeans(heads: Memory, cycle: seq<Head>, k: nat)
    requires IsList(heads, cycle) && 0 < k < |cycle|
    ensures Joined(heads, cycle, k) && IsList(Del(heads, cycle[k]), Without(cycle, k))
    ensures Del(heads, cycle[k])[cycle[k]] == Links(Null, Null)
    ensures forall h :: h !in cycle ==>
      (h in Del(heads, cycle[k]) <==> h in heads) && (h in heads ==> Del(heads, cycle[k])[h] == heads[h])
  {
    var n := |cycle|;
    var less := Without(cycle, k);
    assert Joined(heads, cycle, k) && Joined(heads, cycle, After(n, k)) && Joined(heads, cycle, Before(n, k));
    assert Different(cycle, k, After(n, k)) && Different(cycle, k, Before(n, k));
    var heads' := Del(heads, cycle[k]);
    RemovedDifferent(cycle, k);
    forall i: nat | i < |less| ensures Joined(heads', less, i) {
      DelJoined(heads, cycle, k, i);
    }
  }

  lemma DelJoined(heads: Memory, cycle: seq<Head>, k: nat, i: nat)
    requires IsList(heads, cycle) && 0 < k < |cycle| && i < |cycle| - 1
    ensures Joined(heads, cycle, k) && Joined(Del(heads, cycle[k]), Without(cycle, k), i)
  {
    var n := |cycle|;
    var j := if i < k then i else i + 1;
    assert Joined(heads, cycle, k) && Joined(heads, cycle, After(n, k)) && Joined(heads, cycle, Before(n, k));
    assert Joined(heads, cycle, j);
    assert Different(cycle, j, k) && Different(cycle, j, After(n, k)) && Different(cycle, j, Before(n, k));
    assert Different(cycle, k, After(n, k)) && Different(cycle, k, Before(n, k));
  }

  /** Memory that holds list heads, and the operations that write them. */
  class ListHeads {
    var heads: Memory

    constructor ()
      ensures heads == map[]
    {
      heads := map[];
    }

    /** INIT_LIST_HEAD */
    method InitListHead(list: Head)
      modifies this
      ensures heads == old(heads)[list := Links(list, list)]
      ensures IsList(heads, [list])
    {
      heads := heads[list := Links(list, list)];
      assert Joined(heads, [list], 0);
    }

    method ListAddTail(node: Head, head: Head, ghost cycle: seq<Head>)
      requires IsList(heads, cycle) && cycle[0] == head && node !in cycle && node in heads
      modifies this
      ensures IsList(heads, cycle + [node]) && heads.Keys == old(heads).Keys
      ensures forall h :: h in heads && h !in cycle && h != node ==> heads[h] == old(heads)[h]
    {
      AddTailMeans(heads, cycle, node);
      assert Joined(heads, cycle, 0) && Joined(heads, cycle, |cycle| - 1);
      ghost var heads' := AddTail(heads, node, head);
      var prev := heads[head].prev;
      heads := heads[node := Links(head, prev)];
      heads := heads[prev := heads[prev].(next := node)];
      heads := heads[head := heads[head].(prev := node)];
      assert heads == heads';
    }

    method ListDel(entry: Head, ghost cycle: seq<Head>, ghost k: nat)
      requires IsList(heads, cycle) && 0 < k < |cycle| && cycle[k] == entry
      modifies this
      ensures IsList(heads, Without(cycle, k)) && heads.Keys == old(heads).Keys
      ensures entry in heads && heads[entry] == Links(Null, Null)
      ensures forall h :: h in heads && h !in cycle ==> heads[h] == old(heads)[h]
    {
      DelMeans(heads, cycle, k);
      assert Joined(heads, cycle, k) && Joined(heads, cycle, After(|cycle|, k));
      assert Joined(heads, cycle, Before(|cycle|, k));
      ghost var heads' := Del(heads, entry);
      var e := heads[entry];
      heads := heads[e.next := heads[e.next].(prev := e.prev)];
      heads := heads[e.prev := heads[e.prev].(next := e.next)];
      heads := heads[entry := heads[entry].(next := Null)];
      heads := heads[entry := heads[entry].(prev := Null)];
      assert heads == heads';
    }

    // The memory of a task, with its two heads, is given back.
    method Forget(t: Ptr)
      modifies this
      ensures heads == DropHeads(old(heads), t)
    {
      heads := DropHeads(heads, t);
    }
  }
}
