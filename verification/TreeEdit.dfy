/** Single edits of a page-table tree: each one keeps the tree well formed, and its effect on the flat view
    is stated.  The methods in `Vmm` are sequences of these edits. */
module TreeEdit {
  import opened PageEntry
  import opened PageTree

  function SetEntry(mem: Mem, frame: nat, i: nat, e: Entry): Mem
    requires frame in mem && mem[frame].Table? && i < |mem[frame].entries|
  {
    mem[frame := Table(mem[frame].entries[i := e])]
  }

  ghost predicate Unused(nodes: Nodes, f: nat) {
    forall m :: m in nodes ==> nodes[m] != f
  }

  // Node m is untouched between two trees, and the entry pointing to it lost no flag.
  ghost predicate SameNode(mem: Mem, nodes: Nodes, mem': Mem, nodes': Nodes, m: Node)
    requires m in nodes
  {
    && m in nodes' && nodes'[m] == nodes[m]
    && nodes[m] in mem && nodes[m] in mem' && mem'[nodes[m]] == mem[nodes[m]]
    && (Parent(m) in nodes ==> Parent(m) in nodes')
    && Covers(Link(mem', nodes', m).low, Link(mem, nodes, m).low)
    && (m.level > 0 ==> forall i: nat :: i < 512 ==>
          (Child(m, i) in nodes <==> Child(m, i) in nodes')
          && (Child(m, i) in nodes ==> nodes[Child(m, i)] == nodes'[Child(m, i)]))
  }

  lemma SameNodeOk(mem: Mem, nodes: Nodes, mem': Mem, nodes': Nodes, sh: Sharing, m: Node)
    requires m in nodes && NodeOk(mem, nodes, sh, m)
    requires SameNode(mem, nodes, mem', nodes', m)
    ensures NodeOk(mem', nodes', sh, m)
  {
    if m.level > 0 {
      forall i: nat | i < Width(m) ensures EntryOk(mem', nodes', sh, m, i) {
        assert EntryOk(mem, nodes, sh, m, i);
      }
    }
    if 0 < m.level < 4 {
      assert FlagsOk(mem, nodes, m);
      forall i: nat | i < 512 && Present(EntryAt(mem', nodes'[m], i))
        ensures Covers(Link(mem', nodes', m).low, EntryAt(mem', nodes'[m], i).low)
      {
        CoversTrans(Link(mem', nodes', m).low, Link(mem, nodes, m).low, EntryAt(mem, nodes[m], i).low);
      }
    }
  }

  // Entry i of table n may be written with the flags `perm`: the entry pointing to n has them already.
  ghost predicate CanGrow(mem: Mem, nodes: Nodes, n: Node, i: nat, perm: Flags) {
    && n in nodes && 1 <= n.level <= 4 && i < Width(n)
    && MapFlags(perm)
    && (n.level < 4 ==> Covers(Link(mem, nodes, n).low, perm))
  }

  // ---------------------------------------------------------------- OR flags into an entry

  function WithFlags(e: Entry, perm: Flags): Entry {
    e.(low := Or(e.low, perm))
  }

  lemma CoversItself(low: Flags)
    ensures Covers(low, low)
  {
  }

  lemma CoversGrown(above: Flags, low: Flags, perm: Flags)
    ensures Covers(Or(low, perm), low) && Covers(Or(low, perm), perm)
    ensures Covers(above, low) && Covers(above, perm) ==> Covers(above, Or(low, perm))
  {
  }

  // The entry pointing to m after entry i of n was overwritten.
  lemma LinkAfterSet(mem: Mem, nodes: Nodes, n: Node, i: nat, e: Entry, m: Node)
    requires Injective(nodes) && n in nodes && m in nodes && n.level > 0
    requires nodes[n] in mem && IsTable(mem[nodes[n]]) && i < 512
    ensures Link(SetEntry(mem, nodes[n], i, e), nodes, m) ==
            if m == Child(n, i) then e else Link(mem, nodes, m)
  {
    assert Distinct(nodes, Parent(m), n);
    if m == Child(n, i) {
      assert Parent(m) == n;
    } else if Parent(m) in nodes && Parent(m) == n {
      assert m.prefix % 512 != i;
    }
  }

  // Overwriting an entry of an upper table moves no leaf.
  lemma LeavesKept(mem: Mem, nodes: Nodes, n: Node, i: nat, e: Entry)
    requires Injective(nodes) && n in nodes && n.level > 1
    requires nodes[n] in mem && IsTable(mem[nodes[n]]) && i < 512
    ensures forall v: nat :: Leaf(SetEntry(mem, nodes[n], i, e), nodes, v) == Leaf(mem, nodes, v)
  {
    forall v: nat ensures Leaf(SetEntry(mem, nodes[n], i, e), nodes, v) == Leaf(mem, nodes, v) {
      assert Distinct(nodes, Over(v, 1), n);
    }
  }

  function AddFlagsMem(mem: Mem, nodes: Nodes, n: Node, i: nat, perm: Flags): Mem
    requires n in nodes && nodes[n] in mem && IsTable(mem[nodes[n]]) && i < 512
  {
    SetEntry(mem, nodes[n], i, WithFlags(EntryAt(mem, nodes[n], i), perm))
  }

  lemma AddFlags(mem: Mem, nodes: Nodes, sh: Sharing, n: Node, i: nat, perm: Flags)
    requires TreeOk(mem, nodes, sh) && Injective(nodes)
    requires CanGrow(mem, nodes, n, i, perm) && n.level > 1 && Child(n, i) in nodes
    requires NodeOk(mem, nodes, sh, n)
    ensures TreeOk(AddFlagsMem(mem, nodes, n, i, perm), nodes, sh)
    ensures Covers(Link(AddFlagsMem(mem, nodes, n, i, perm), nodes, Child(n, i)).low, perm)
    ensures forall v: nat :: Leaf(AddFlagsMem(mem, nodes, n, i, perm), nodes, v) == Leaf(mem, nodes, v)
  {
    var e := EntryAt(mem, nodes[n], i);
    var mem' := AddFlagsMem(mem, nodes, n, i, perm);
    forall m | m in nodes ensures NodeOk(mem', nodes, sh, m) {
      assert NodeOk(mem, nodes, sh, m);
      if m == n {
        AddFlagsHere(mem, nodes, sh, n, i, perm);
      } else {
        AddFlagsThere(mem, nodes, sh, n, i, perm, m);
      }
    }
    LinkAfterSet(mem, nodes, n, i, WithFlags(e, perm), Child(n, i));
    CoversGrown(e.low, e.low, perm);
    LeavesKept(mem, nodes, n, i, WithFlags(e, perm));
  }

  lemma AddFlagsThere(mem: Mem, nodes: Nodes, sh: Sharing, n: Node, i: nat, perm: Flags, m: Node)
    requires Injective(nodes) && m in nodes && m != n
    requires CanGrow(mem, nodes, n, i, perm) && n.level > 1
    requires NodeOk(mem, nodes, sh, m) && NodeOk(mem, nodes, sh, n)
    ensures NodeOk(AddFlagsMem(mem, nodes, n, i, perm), nodes, sh, m)
  {
    var e := EntryAt(mem, nodes[n], i);
    LinkAfterSet(mem, nodes, n, i, WithFlags(e, perm), m);
    CoversGrown(e.low, e.low, perm);
    CoversItself(Link(mem, nodes, m).low);
    assert Distinct(nodes, m, n);
    SameNodeOk(mem, nodes, AddFlagsMem(mem, nodes, n, i, perm), nodes, sh, m);
  }

  lemma AddFlagsHere(mem: Mem, nodes: Nodes, sh: Sharing, n: Node, i: nat, perm: Flags)
    requires Injective(nodes)
    requires CanGrow(mem, nodes, n, i, perm) && n.level > 1 && NodeOk(mem, nodes, sh, n)
    requires Child(n, i) in nodes
    ensures NodeOk(AddFlagsMem(mem, nodes, n, i, perm), nodes, sh, n)
  {
    var e := EntryAt(mem, nodes[n], i);
    var mem' := AddFlagsMem(mem, nodes, n, i, perm);
    LinkAfterSet(mem, nodes, n, i, WithFlags(e, perm), n);
    assert EntryOk(mem, nodes, sh, n, i);
    forall j: nat | j < Width(n) ensures EntryOk(mem', nodes, sh, n, j) {
      assert EntryOk(mem, nodes, sh, n, j);
    }
    if n.level < 4 {
      var up := Link(mem, nodes, n).low;
      assert FlagsOk(mem, nodes, n);
      forall j: nat | j < 512 && Present(EntryAt(mem', nodes[n], j))
        ensures Covers(up, EntryAt(mem', nodes[n], j).low)
      {
        assert EntryAt(mem', nodes[n], j) == if j == i then WithFlags(e, perm) else EntryAt(mem, nodes[n], j);
        CoversGrown(up, e.low, perm);
      }
    }
  }

  // ---------------------------------------------------------------- edits that add or remove a child

  // Between the two trees only entry i of table n and the child node it points to differ.
  ghost predicate EditedAt(mem: Mem, nodes: Nodes, mem': Mem, nodes': Nodes, n: Node, i: nat) {
    && n in nodes && n.level > 0 && i < Width(n)
    && nodes[n] in mem && IsTable(mem[nodes[n]])
    && nodes[n] in mem' && IsTable(mem'[nodes[n]])
    && (forall j: nat :: j < 512 && j != i ==> EntryAt(mem', nodes[n], j) == EntryAt(mem, nodes[n], j))
    && SameElsewhere(mem, nodes, mem', nodes', n, Child(n, i))
  }

  // Nodes other than c are the same, and those other than n have the same contents.
  ghost predicate SameElsewhere(mem: Mem, nodes: Nodes, mem': Mem, nodes': Nodes, n: Node, c: Node) {
    && (forall k :: k in nodes && k != c ==> k in nodes' && nodes'[k] == nodes[k])
    && (forall k :: k in nodes' && k != c ==> k in nodes)
    && (forall k :: k in nodes && k != n && k != c ==>
          nodes[k] in mem && nodes[k] in mem' && mem'[nodes[k]] == mem[nodes[k]])
  }

  lemma EditOthers(mem: Mem, nodes: Nodes, mem': Mem, nodes': Nodes, sh: Sharing, n: Node, i: nat, m: Node)
    requires EditedAt(mem, nodes, mem', nodes', n, i)
    requires m in nodes && m != n && m != Child(n, i) && Parent(m) != Child(n, i)
    requires NodeOk(mem, nodes, sh, m)
    ensures NodeOk(mem', nodes', sh, m)
  {
    if m.level < 4 {
      EditLink(mem, nodes, mem', nodes', n, i, m);
    }
    if m.level > 0 {
      forall j: nat | j < 512 ensures Child(m, j) != Child(n, i) {
        assert Parent(Child(m, j)) == m;
      }
    }
    SameNodeOk(mem, nodes, mem', nodes', sh, m);
  }

  lemma EditLink(mem: Mem, nodes: Nodes, mem': Mem, nodes': Nodes, n: Node, i: nat, m: Node)
    requires EditedAt(mem, nodes, mem', nodes', n, i)
    requires m != Child(n, i) && Parent(m) != Child(n, i)
    ensures Link(mem', nodes', m) == Link(mem, nodes, m)
  {
    if Parent(m) == n {
      assert m.prefix % 512 != i;
    }
  }

  // The table that was edited stays well formed when its new entry is.
  lemma EditHere(mem: Mem, nodes: Nodes, mem': Mem, nodes': Nodes, sh: Sharing, n: Node, i: nat)
    requires EditedAt(mem, nodes, mem', nodes', n, i)
    requires NodeOk(mem, nodes, sh, n)
    requires EntryOk(mem', nodes', sh, n, i)
    requires n.level < 4 && Present(EntryAt(mem', nodes[n], i)) ==>
               Covers(Link(mem, nodes, n).low, EntryAt(mem', nodes[n], i).low)
    ensures NodeOk(mem', nodes', sh, n)
  {
    forall j: nat | j < Width(n) && j != i ensures EntryOk(mem', nodes', sh, n, j) {
      assert EntryOk(mem, nodes, sh, n, j);
      assert Child(n, j) != Child(n, i);
    }
    if n.level == 4 {
      forall j | 256 <= j < 512 ensures mem'[nodes[n]].entries[j] == sh.kernel[j] {
        assert EntryAt(mem', nodes[n], j) == EntryAt(mem, nodes[n], j);
      }
    }
    if n.level < 4 {
      EditLink(mem, nodes, mem', nodes', n, i, n);
      assert FlagsOk(mem, nodes, n);
      forall j: nat | j < 512 && Present(EntryAt(mem', nodes[n], j))
        ensures Covers(Link(mem, nodes, n).low, EntryAt(mem', nodes[n], j).low)
      {
        assert j != i ==> EntryAt(mem', nodes[n], j) == EntryAt(mem, nodes[n], j);
      }
    }
  }

  lemma EditTree(mem: Mem, nodes: Nodes, mem': Mem, nodes': Nodes, sh: Sharing, n: Node, i: nat)
    requires TreeOk(mem, nodes, sh)
    requires EditedAt(mem, nodes, mem', nodes', n, i)
    requires EntryOk(mem', nodes', sh, n, i)
    requires n.level < 4 && Present(EntryAt(mem', nodes[n], i)) ==>
               Covers(Link(mem, nodes, n).low, EntryAt(mem', nodes[n], i).low)
    requires n.level > 1 ==> Child(n, i) !in nodes
    requires Child(n, i) in nodes' ==> NodeOk(mem', nodes', sh, Child(n, i))
    ensures TreeOk(mem', nodes', sh)
  {
    assert NodeOk(mem, nodes, sh, n);
    EditHere(mem, nodes, mem', nodes', sh, n, i);
    forall m | m in nodes' ensures NodeOk(mem', nodes', sh, m) {
      if m != n && m != Child(n, i) {
        assert NodeOk(mem, nodes, sh, m);
        EditOthers(mem, nodes, mem', nodes', sh, n, i, m);
      }
    }
  }

  lemma EditLeaf(mem: Mem, nodes: Nodes, mem': Mem, nodes': Nodes, n: Node, i: nat, v: nat)
    requires EditedAt(mem, nodes, mem', nodes', n, i)
    requires Over(v, 1) != Child(n, i) && (Over(v, 1) == n ==> v % 512 != i)
    ensures Leaf(mem', nodes', v) == Leaf(mem, nodes, v)
  {
  }

  // ---------------------------------------------------------------- link a fresh table

  function AddTableMem(mem: Mem, nodes: Nodes, n: Node, i: nat, f: nat, perm: Flags): Mem
    requires n in nodes && nodes[n] in mem && IsTable(mem[nodes[n]]) && i < 512
    requires f != nodes[n]
  {
    SetEntry(mem[f := EmptyTable()], nodes[n], i, Entry(f, perm, false))
  }

  ghost predicate CanAddTable(mem: Mem, nodes: Nodes, sh: Sharing, n: Node, i: nat, f: nat, perm: Flags) {
    && TreeOk(mem, nodes, sh) && Injective(nodes)
    && CanGrow(mem, nodes, n, i, perm) && n.level > 1 && Child(n, i) !in nodes
    && NodeOk(mem, nodes, sh, n)
    && Unused(nodes, f) && !IsShared(sh, f)
  }

  lemma AddTable(mem: Mem, nodes: Nodes, sh: Sharing, n: Node, i: nat, f: nat, perm: Flags)
    requires CanAddTable(mem, nodes, sh, n, i, f, perm)
    ensures TreeOk(AddTableMem(mem, nodes, n, i, f, perm), nodes[Child(n, i) := f], sh)
    ensures Link(AddTableMem(mem, nodes, n, i, f, perm), nodes[Child(n, i) := f], Child(n, i)).low == perm
    ensures forall v: nat ::
      Leaf(AddTableMem(mem, nodes, n, i, f, perm), nodes[Child(n, i) := f], v) == Leaf(mem, nodes, v)
  {
    var mem' := AddTableMem(mem, nodes, n, i, f, perm);
    var nodes' := nodes[Child(n, i) := f];
    AddTableEdits(mem, nodes, sh, n, i, f, perm);
    NewTableOk(mem, nodes, sh, n, i, f, perm);
    EditTree(mem, nodes, mem', nodes', sh, n, i);
    forall v: nat ensures Leaf(mem', nodes', v) == Leaf(mem, nodes, v) {
      if Over(v, 1) != Child(n, i) {
        EditLeaf(mem, nodes, mem', nodes', n, i, v);
      }
    }
  }

  lemma AddTableEdits(mem: Mem, nodes: Nodes, sh: Sharing, n: Node, i: nat, f: nat, perm: Flags)
    requires CanAddTable(mem, nodes, sh, n, i, f, perm)
    ensures EditedAt(mem, nodes, AddTableMem(mem, nodes, n, i, f, perm), nodes[Child(n, i) := f], n, i)
    ensures EntryOk(AddTableMem(mem, nodes, n, i, f, perm), nodes[Child(n, i) := f], sh, n, i)
    ensures EntryAt(AddTableMem(mem, nodes, n, i, f, perm), nodes[n], i) == Entry(f, perm, false)
  {
    var mem' := AddTableMem(mem, nodes, n, i, f, perm);
    forall k | k in nodes && k != n ensures nodes[k] in mem && mem'[nodes[k]] == mem[nodes[k]] {
      assert NodeOk(mem, nodes, sh, k) && Distinct(nodes, k, n);
    }
  }

  lemma NewTableOk(mem: Mem, nodes: Nodes, sh: Sharing, n: Node, i: nat, f: nat, perm: Flags)
    requires CanAddTable(mem, nodes, sh, n, i, f, perm)
    ensures NodeOk(AddTableMem(mem, nodes, n, i, f, perm), nodes[Child(n, i) := f], sh, Child(n, i))
    ensures Link(AddTableMem(mem, nodes, n, i, f, perm), nodes[Child(n, i) := f], Child(n, i)) == Entry(f, perm, false)
  {
    var c := Child(n, i);
    var mem' := AddTableMem(mem, nodes, n, i, f, perm);
    var nodes' := nodes[c := f];
    assert Parent(c) == n;
    forall k | k in nodes && k.level < 4 ensures Parent(k) in nodes {
      assert NodeOk(mem, nodes, sh, k);
    }
    forall j: nat | j < Width(c) ensures EntryOk(mem', nodes', sh, c, j) {
      assert Parent(Child(c, j)) == c;
    }
  }

  // ---------------------------------------------------------------- write or clear a leaf

  // The nodes once page v is mapped to `frame`: a private frame becomes a node, a shared one does not.
  function LeafNodes(nodes: Nodes, sh: Sharing, v: nat, frame: nat): Nodes {
    if IsShared(sh, frame) then nodes - {Node(0, v)} else nodes[Node(0, v) := frame]
  }

  ghost predicate CanSetLeaf(mem: Mem, nodes: Nodes, sh: Sharing, v: nat, e: Entry) {
    && TreeOk(mem, nodes, sh) && Injective(nodes)
    && Over(v, 1) in nodes && NodeOk(mem, nodes, sh, Over(v, 1))
    && MapFlags(e.low) && Covers(Link(mem, nodes, Over(v, 1)).low, e.low)
    && (!IsShared(sh, e.frame) ==>
          e.frame in mem && IsPage(mem[e.frame])
          && forall m :: m in nodes && m != Node(0, v) ==> nodes[m] != e.frame)
  }

  function SetLeafMem(mem: Mem, nodes: Nodes, v: nat, e: Entry): Mem
    requires Over(v, 1) in nodes && nodes[Over(v, 1)] in mem && IsTable(mem[nodes[Over(v, 1)]])
  {
    SetEntry(mem, nodes[Over(v, 1)], v % 512, e)
  }

  lemma SetLeaf(mem: Mem, nodes: Nodes, sh: Sharing, v: nat, e: Entry)
    requires CanSetLeaf(mem, nodes, sh, v, e)
    ensures TreeOk(SetLeafMem(mem, nodes, v, e), LeafNodes(nodes, sh, v, e.frame), sh)
    ensures forall u: nat :: Leaf(SetLeafMem(mem, nodes, v, e), LeafNodes(nodes, sh, v, e.frame), u) ==
                             if u == v then Some(e) else Leaf(mem, nodes, u)
  {
    var n := Over(v, 1);
    var i := v % 512;
    var mem' := SetLeafMem(mem, nodes, v, e);
    var nodes' := LeafNodes(nodes, sh, v, e.frame);
    assert Child(n, i) == Node(0, v);
    SetLeafEdits(mem, nodes, sh, v, e);
    SetLeafEntry(mem, nodes, sh, v, e);
    EditTree(mem, nodes, mem', nodes', sh, n, i);
    forall u: nat ensures Leaf(mem', nodes', u) == if u == v then Some(e) else Leaf(mem, nodes, u) {
      if u != v {
        assert Over(u, 1) == n ==> u % 512 != i;
        EditLeaf(mem, nodes, mem', nodes', n, i, u);
      }
    }
  }

  lemma SetLeafEdits(mem: Mem, nodes: Nodes, sh: Sharing, v: nat, e: Entry)
    requires CanSetLeaf(mem, nodes, sh, v, e)
    ensures EditedAt(mem, nodes, SetLeafMem(mem, nodes, v, e), LeafNodes(nodes, sh, v, e.frame), Over(v, 1), v % 512)
  {
    assert Child(Over(v, 1), v % 512) == Node(0, v);
    var mem' := SetLeafMem(mem, nodes, v, e);
    forall k | k in nodes && k != Over(v, 1) ensures nodes[k] in mem && mem'[nodes[k]] == mem[nodes[k]] {
      assert NodeOk(mem, nodes, sh, k) && Distinct(nodes, k, Over(v, 1));
    }
  }

  lemma SetLeafEntry(mem: Mem, nodes: Nodes, sh: Sharing, v: nat, e: Entry)
    requires CanSetLeaf(mem, nodes, sh, v, e)
    ensures EntryOk(SetLeafMem(mem, nodes, v, e), LeafNodes(nodes, sh, v, e.frame), sh, Over(v, 1), v % 512)
    ensures EntryAt(SetLeafMem(mem, nodes, v, e), nodes[Over(v, 1)], v % 512) == e
    ensures Node(0, v) in LeafNodes(nodes, sh, v, e.frame) ==>
              NodeOk(SetLeafMem(mem, nodes, v, e), LeafNodes(nodes, sh, v, e.frame), sh, Node(0, v))
  {
    assert Child(Over(v, 1), v % 512) == Node(0, v);
    assert Parent(Node(0, v)) == Over(v, 1);
    assert Over(v, 1) != Node(0, v);
  }

  lemma ClearLeaf(mem: Mem, nodes: Nodes, sh: Sharing, v: nat)
    requires TreeOk(mem, nodes, sh) && Injective(nodes)
    requires Over(v, 1) in nodes && NodeOk(mem, nodes, sh, Over(v, 1))
    ensures TreeOk(SetLeafMem(mem, nodes, v, EMPTY), nodes - {Node(0, v)}, sh)
    ensures forall u: nat :: Leaf(SetLeafMem(mem, nodes, v, EMPTY), nodes - {Node(0, v)}, u) ==
                             if u == v then None else Leaf(mem, nodes, u)
  {
    var n := Over(v, 1);
    var i := v % 512;
    var mem' := SetLeafMem(mem, nodes, v, EMPTY);
    var nodes' := nodes - {Node(0, v)};
    assert Child(n, i) == Node(0, v);
    forall k | k in nodes && k != n ensures nodes[k] in mem && mem'[nodes[k]] == mem[nodes[k]] {
      assert NodeOk(mem, nodes, sh, k) && Distinct(nodes, k, n);
    }
    EditTree(mem, nodes, mem', nodes', sh, n, i);
    forall u: nat ensures Leaf(mem', nodes', u) == if u == v then None else Leaf(mem, nodes, u) {
      if u != v {
        assert Over(u, 1) == n ==> u % 512 != i;
        EditLeaf(mem, nodes, mem', nodes', n, i, u);
      }
    }
  }

  // ---------------------------------------------------------------- trees that were not touched

  // The frame of n still holds the same table, or still a page.
  ghost predicate Survives(mem: Mem, mem': Mem, nodes: Nodes, n: Node)
    requires n in nodes
  {
    var f := nodes[n];
    && f in mem && f in mem'
    && (n.level > 0 ==> mem'[f] == mem[f])
    && (n.level == 0 ==> IsPage(mem'[f]))
  }

  // A tree whose tables keep their contents, and whose pages stay pages, is unchanged.
  lemma Untouched(mem: Mem, mem': Mem, nodes: Nodes, sh: Sharing)
    requires TreeOk(mem, nodes, sh)
    requires forall n {:trigger Survives(mem, mem', nodes, n)} :: n in nodes ==> Survives(mem, mem', nodes, n)
    ensures TreeOk(mem', nodes, sh)
    ensures forall v: nat :: Leaf(mem', nodes, v) == Leaf(mem, nodes, v)
  {
    forall n | n in nodes ensures NodeOk(mem', nodes, sh, n) {
      UntouchedNode(mem, mem', nodes, sh, n);
    }
    forall v: nat ensures Leaf(mem', nodes, v) == Leaf(mem, nodes, v) {
      if Over(v, 1) in nodes {
        assert Survives(mem, mem', nodes, Over(v, 1));
      }
    }
  }

  lemma UntouchedNode(mem: Mem, mem': Mem, nodes: Nodes, sh: Sharing, n: Node)
    requires TreeOk(mem, nodes, sh) && n in nodes
    requires forall n {:trigger Survives(mem, mem', nodes, n)} :: n in nodes ==> Survives(mem, mem', nodes, n)
    ensures NodeOk(mem', nodes, sh, n)
  {
    assert NodeOk(mem, nodes, sh, n) && Survives(mem, mem', nodes, n);
    if n.level > 0 {
      if Parent(n) in nodes {
        assert Survives(mem, mem', nodes, Parent(n)) && NodeOk(mem, nodes, sh, Parent(n));
      }
      assert Link(mem', nodes, n) == Link(mem, nodes, n);
      CoversGrown(Link(mem, nodes, n).low, Link(mem, nodes, n).low, Link(mem, nodes, n).low);
      SameNodeOk(mem, nodes, mem', nodes, sh, n);
    }
  }
}
