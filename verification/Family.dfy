/** Parents and children: the child lists, kept in memory as intrusive lists, agree with the parent fields. */
module Family {
  import opened IntrusiveList

  // For each task its child list: its own head, then a link inside each child.
  type Lists = map<Ptr, seq<Head>>

  type Parents = map<Ptr, Ptr>

  predicate IsLink(parent: Parents, p: Ptr, h: Head) {
    h.SiblingOf? && h.task in parent && parent[h.task] == p
  }

  // The child list of p is well linked, and lists tasks whose parent is p.
  ghost predicate ListOk(heads: Memory, lists: Lists, parent: Parents, p: Ptr)
    requires p in lists
  {
    && IsList(heads, lists[p]) && lists[p][0] == ChildrenOf(p)
    && forall i: nat {:trigger lists[p][i]} :: 0 < i < |lists[p]| ==> IsLink(parent, p, lists[p][i])
  }

  // Task t is in the list of its parent, or is the first task, which is its own parent and in no list.
  ghost predicate Listed(lists: Lists, parent: Parents, first: Ptr, t: Ptr)
    requires t in parent
  {
    && parent[t] in lists && (t == first <==> SiblingOf(t) !in lists[parent[t]])
    && (t == first <==> parent[t] == t)
  }

  ghost predicate FamilyOk(heads: Memory, lists: Lists, parent: Parents, first: Ptr) {
    && first in parent
    && (forall p :: p in lists <==> p in parent)
    && (forall p {:trigger ListOk(heads, lists, parent, p)} :: p in lists ==> ListOk(heads, lists, parent, p))
    && (forall t {:trigger Listed(lists, parent, first, t)} :: t in parent ==> Listed(lists, parent, first, t))
  }

  // What a member of a list can be.
  lemma Member(heads: Memory, lists: Lists, parent: Parents, p: Ptr, h: Head)
    requires p in lists && ListOk(heads, lists, parent, p) && h in lists[p]
    ensures h in heads && (h == ChildrenOf(p) || IsLink(parent, p, h))
  {
    var i :| 0 <= i < |lists[p]| && lists[p][i] == h;
    assert Joined(heads, lists[p], i);
  }

  // A list is not touched by changes outside of it.
  lemma ListUntouched(heads: Memory, heads': Memory, lists: Lists, parent: Parents, q: Ptr)
    requires q in lists && ListOk(heads, lists, parent, q)
    requires forall h :: h in lists[q] ==> h in heads' && h in heads && heads'[h] == heads[h]
    ensures ListOk(heads', lists, parent, q)
  {
    ListKept(heads, heads', lists[q]);
  }

  lemma ListElsewhere(heads: Memory, heads': Memory, lists: Lists, parent: Parents, p: Ptr, q: Ptr)
    requires p in lists && q in lists && q != p && ListOk(heads, lists, parent, q) && ListOk(heads, lists, parent, p)
    requires forall h :: h in heads && h !in lists[p] ==> h in heads' && heads'[h] == heads[h]
    ensures ListOk(heads', lists, parent, q)
  {
    forall h | h in lists[q] ensures h in heads && h in heads' && heads'[h] == heads[h] {
      Member(heads, lists, parent, q, h);
      if h in lists[p] {
        Member(heads, lists, parent, p, h);
      }
    }
    ListUntouched(heads, heads', lists, parent, q);
  }

  // ---------------------------------------------------------------- a child is added

  // A list grows at its end.
  lemma ListLonger(heads: Memory, heads': Memory, lists: Lists, lists': Lists, parent: Parents, parent': Parents,
                   p: Ptr, t: Ptr)
    requires p in lists && ListOk(heads, lists, parent, p)
    requires p in lists' && lists'[p] == lists[p] + [SiblingOf(t)] && IsList(heads', lists'[p])
    requires t in parent' && parent'[t] == p && forall u :: u in parent && u != t ==>
      u in parent' && parent'[u] == parent[u]
    ensures ListOk(heads', lists', parent', p)
  {
    forall i: nat | 0 < i < |lists'[p]| ensures IsLink(parent', p, lists'[p][i]) {
      if i < |lists[p]| {
        assert lists'[p][i] == lists[p][i];
      }
    }
  }

  // A new task t, linked to the end of the child list of p.
  lemma ChildAdded(heads: Memory, heads': Memory, lists: Lists, parent: Parents, first: Ptr, p: Ptr, t: Ptr)
    requires FamilyOk(heads, lists, parent, first) && p in lists && t !in parent
    requires IsList(heads', lists[p] + [SiblingOf(t)]) && IsList(heads', [ChildrenOf(t)])
    requires forall h :: h in heads && h !in lists[p] && h != SiblingOf(t) && h != ChildrenOf(t) ==>
      h in heads' && heads'[h] == heads[h]
    ensures FamilyOk(heads', lists[p := lists[p] + [SiblingOf(t)]][t := [ChildrenOf(t)]], parent[t := p], first)
  {
    var lists', parent' := lists[p := lists[p] + [SiblingOf(t)]][t := [ChildrenOf(t)]], parent[t := p];
    ListLonger(heads, heads', lists, lists', parent, parent', p, t);
    forall q | q in lists' ensures ListOk(heads', lists', parent', q) {
      if q != p && q != t {
        OtherList(heads, heads', lists, lists', parent, parent', p, q, t);
      }
    }
    forall u | u in parent' ensures Listed(lists', parent', first, u) {
      assert u != t ==> Listed(lists, parent, first, u);
    }
  }

  lemma OtherList(heads: Memory, heads': Memory, lists: Lists, lists': Lists, parent: Parents, parent': Parents, p: Ptr,
                  q: Ptr, t: Ptr)
    requires p in lists && q in lists && q != p && q != t && ListOk(heads, lists, parent, q)
    requires ListOk(heads, lists, parent, p)
    requires SiblingOf(t) !in lists[q]
    requires q in lists' && lists'[q] == lists[q]
    requires forall h :: h in heads && h !in lists[p] && h != SiblingOf(t) && h != ChildrenOf(t) ==>
      h in heads' && heads'[h] == heads[h]
    requires forall u :: u in parent && u != t ==> u in parent' && parent'[u] == parent[u]
    ensures ListOk(heads', lists', parent', q)
  {
    forall h | h in lists[q] ensures h in heads && h in heads' && heads'[h] == heads[h] {
      Member(heads, lists, parent, q, h);
      if h in lists[p] {
        Member(heads, lists, parent, p, h);
      }
    }
    ListUntouched(heads, heads', lists, parent, q);
    forall i: nat | 0 < i < |lists'[q]| ensures IsLink(parent', q, lists'[q][i]) {
      assert IsLink(parent, q, lists[q][i]);
    }
  }

  lemma NotListed(heads: Memory, lists: Lists, parent: Parents, q: Ptr, t: Ptr)
    requires q in lists && ListOk(heads, lists, parent, q) && (t !in parent || parent[t] != q)
    ensures SiblingOf(t) !in lists[q]
  {
    if SiblingOf(t) in lists[q] {
      Member(heads, lists, parent, q, SiblingOf(t));
    }
  }

  // ---------------------------------------------------------------- a child is removed

  // Task t was taken out of its parent's list, and is in no list now.
  ghost predicate TakenOut(heads: Memory, lists: Lists, parent: Parents, first: Ptr, t: Ptr) {
    && first in parent && t in parent && t != first
    && (forall p :: p in lists <==> p in parent)
    && (forall p {:trigger ListOk(heads, lists, parent, p)} :: p in lists ==> ListOk(heads, lists, parent, p))
    && (forall u {:trigger Listed(lists, parent, first, u)} ::
          u in parent && u != t ==> Listed(lists, parent, first, u))
    && (forall p :: p in lists ==> SiblingOf(t) !in lists[p])
  }

  // What is left of a list of different heads when number i is taken out.
  lemma RemainingMembers(cycle: seq<Head>, i: nat, h: Head)
    requires i < |cycle|
    requires forall j: nat, k: nat {:trigger Different(cycle, j, k)} :: j < |cycle| && k < |cycle| ==>
      Different(cycle, j, k)
    ensures h in Without(cycle, i) <==> h in cycle && h != cycle[i]
  {
    var less := Without(cycle, i);
    RemovedDifferent(cycle, i);
    if h in less {
      var j :| 0 <= j < |less| && less[j] == h;
      assert h == cycle[if j < i then j else j + 1];
    }
    if h in cycle && h != cycle[i] {
      var j :| 0 <= j < |cycle| && cycle[j] == h;
      assert less[if j < i then j else j - 1] == h;
    }
  }

  lemma ListShorter(heads: Memory, heads': Memory, lists: Lists, parent: Parents, p: Ptr, i: nat)
    requires p in lists && ListOk(heads, lists, parent, p) && 0 < i < |lists[p]|
    requires IsList(heads', Without(lists[p], i))
    ensures ListOk(heads', lists[p := Without(lists[p], i)], parent, p)
  {
    var less := Without(lists[p], i);
    forall j: nat | 0 < j < |less| ensures IsLink(parent, p, less[j]) {
      assert less[j] == lists[p][if j < i then j else j + 1];
    }
  }

  lemma ChildTakenOut(heads: Memory, heads': Memory, lists: Lists, parent: Parents, first: Ptr, p: Ptr, i: nat)
    requires FamilyOk(heads, lists, parent, first) && p in lists && 0 < i < |lists[p]|
    requires IsList(heads', Without(lists[p], i))
    requires forall h :: h in heads && h !in lists[p] ==> h in heads' && heads'[h] == heads[h]
    ensures lists[p][i].SiblingOf?
    ensures TakenOut(heads', lists[p := Without(lists[p], i)], parent, first, lists[p][i].task)
  {
    assert ListOk(heads, lists, parent, p) && IsLink(parent, p, lists[p][i]);
    var t := lists[p][i].task;
    var lists' := lists[p := Without(lists[p], i)];
    assert Listed(lists, parent, first, t);
    RemainingMembers(lists[p], i, SiblingOf(t));
    ListShorter(heads, heads', lists, parent, p, i);
    forall q | q in lists' && q != p ensures ListOk(heads', lists', parent, q) && SiblingOf(t) !in lists'[q] {
      assert ListOk(heads, lists, parent, q);
      NotListed(heads, lists, parent, q, t);
      ListElsewhere(heads, heads', lists, parent, p, q);
    }
    forall u | u in parent && u != t ensures Listed(lists', parent, first, u) {
      assert Listed(lists, parent, first, u);
      RemainingMembers(lists[p], i, SiblingOf(u));
    }
  }

  // The task taken out gets a new parent, at the end of whose list it is linked.
  lemma ChildAdopted(heads: Memory, heads': Memory, lists: Lists, parent: Parents, first: Ptr, t: Ptr, p: Ptr)
    requires TakenOut(heads, lists, parent, first, t) && p in lists && p != t
    requires IsList(heads', lists[p] + [SiblingOf(t)])
    requires forall h :: h in heads && h !in lists[p] && h != SiblingOf(t) ==> h in heads' && heads'[h] == heads[h]
    ensures FamilyOk(heads', lists[p := lists[p] + [SiblingOf(t)]], parent[t := p], first)
  {
    var lists', parent' := lists[p := lists[p] + [SiblingOf(t)]], parent[t := p];
    assert ListOk(heads, lists, parent, p);
    ListLonger(heads, heads', lists, lists', parent, parent', p, t);
    forall q | q in lists' && q != p ensures ListOk(heads', lists', parent', q) {
      assert ListOk(heads, lists, parent, q);
      if q == t {
        AdopteesList(heads, heads', lists, lists', parent, parent', p, t);
      } else {
        OtherList(heads, heads', lists, lists', parent, parent', p, q, t);
      }
    }
    forall u | u in parent' ensures Listed(lists', parent', first, u) {
      if u != t {
        assert Listed(lists, parent, first, u);
      }
    }
  }

  // The task's own child list stays.
  lemma AdopteesList(heads: Memory, heads': Memory, lists: Lists, lists': Lists, parent: Parents, parent': Parents,
                     p: Ptr, t: Ptr)
    requires p in lists && t in lists && p != t && ListOk(heads, lists, parent, t) && ListOk(heads, lists, parent, p)
    requires SiblingOf(t) !in lists[t] && t in lists' && lists'[t] == lists[t]
    requires forall h :: h in heads && h !in lists[p] && h != SiblingOf(t) ==> h in heads' && heads'[h] == heads[h]
    requires forall u :: u in parent && u != t ==> u in parent' && parent'[u] == parent[u]
    ensures ListOk(heads', lists', parent', t)
  {
    forall h | h in lists[t] ensures h in heads && h in heads' && heads'[h] == heads[h] {
      Member(heads, lists, parent, t, h);
      if h in lists[p] {
        Member(heads, lists, parent, p, h);
      }
    }
    ListUntouched(heads, heads', lists, parent, t);
    forall i: nat | 0 < i < |lists'[t]| ensures IsLink(parent', t, lists'[t][i]) {
      assert IsLink(parent, t, lists[t][i]) && lists[t][i] in lists[t];
    }
  }

  // The task taken out has no children, and goes; nothing in any list pointed to it.
  lemma ChildGone(heads: Memory, lists: Lists, parent: Parents, first: Ptr, t: Ptr)
    requires TakenOut(heads, lists, parent, first, t) && lists[t] == [ChildrenOf(t)]
    ensures FamilyOk(DropHeads(heads, t), Drop(lists, t), Drop(parent, t), first)
  {
    var heads', lists', parent' := DropHeads(heads, t), Drop(lists, t), Drop(parent, t);
    forall q | q in lists' ensures ListOk(heads', lists', parent', q) {
      GoneElsewhere(heads, lists, parent, first, t, q);
    }
    forall u | u in parent' ensures Listed(lists', parent', first, u) {
      assert Listed(lists, parent, first, u);
      assert SiblingOf(u) !in lists[t];
    }
  }

  lemma GoneElsewhere(heads: Memory, lists: Lists, parent: Parents, first: Ptr, t: Ptr, q: Ptr)
    requires TakenOut(heads, lists, parent, first, t) && q in lists && q != t
    ensures ListOk(DropHeads(heads, t), Drop(lists, t), Drop(parent, t), q)
  {
    var heads', lists', parent' := DropHeads(heads, t), Drop(lists, t), Drop(parent, t);
    assert ListOk(heads, lists, parent, q);
    forall h | h in lists[q] ensures h in heads && h in heads' && heads'[h] == heads[h] {
      Member(heads, lists, parent, q, h);
    }
    ListUntouched(heads, heads', lists, parent, q);
    forall i: nat | 0 < i < |lists'[q]| ensures IsLink(parent', q, lists'[q][i]) {
      assert IsLink(parent, q, lists[q][i]);
      assert lists[q][i] in lists[q];
    }
  }

  /** Every link of a child list stays within the living tasks. */
  lemma LinksStayInside(heads: Memory, lists: Lists, parent: Parents, first: Ptr, p: Ptr, h: Head)
    requires FamilyOk(heads, lists, parent, first) && p in lists && h in lists[p]
    ensures h in heads && !heads[h].next.Null? && heads[h].next.task in parent
    ensures !heads[h].prev.Null? && heads[h].prev.task in parent
  {
    assert ListOk(heads, lists, parent, p);
    var c := lists[p];
    var i :| 0 <= i < |c| && c[i] == h;
    assert Joined(heads, c, i);
    Member(heads, lists, parent, p, c[After(|c|, i)]);
    Member(heads, lists, parent, p, c[Before(|c|, i)]);
  }
}
