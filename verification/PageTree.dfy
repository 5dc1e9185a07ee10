/** What a four-level page table stored in physical frames means, and which frames it is made of.

    A tree is described by the map from its nodes to the frames that hold them: node (4, 0) is the root, node
    (l, p) for l = 3, 2, 1 is the table that covers the p-th group of 512^l pages, and node (0, v) is the private
    data frame of page v.  Frames that every address space shares (frame buffer, signal trampoline) are leaves
    but not nodes. */
module PageTree {
  import opened PageEntry

  datatype Option<+T> = None | Some(value: T)

  datatype Node = Node(level: nat, prefix: nat)

  type Mem = map<nat, Frame>
  type Nodes = map<Node, nat>

  const ROOT: Node := Node(4, 0)

  function Parent(n: Node): Node {
    Node(n.level + 1, n.prefix / 512)
  }

  function Child(n: Node, i: nat): Node
    requires n.level > 0
  {
    Node(n.level - 1, n.prefix * 512 + i)
  }

  // The node of the given level that covers page v.
  function Over(v: nat, level: nat): Node {
    Node(level, Up(v, level))
  }

  // How many entries of a table belong to the user half.
  function Width(n: Node): nat {
    if n.level == 4 then 256 else 512
  }

  // What all address spaces have in common: the trampoline frame, the frame buffer's address and size, and the
  // kernel's entries in the upper half of the root table.
  datatype Sharing = Sharing(sigtramp: nat, fbPhys: nat, fbSize: nat, kernel: seq<Entry>)

  // Frames that are mapped in several address spaces and belong to none (vmm_is_shared_frame).
  predicate IsShared(sh: Sharing, frame: nat) {
    || (sh.sigtramp != 0 && frame == sh.sigtramp)
    || (sh.fbSize != 0 && sh.fbPhys / 4096 <= frame && frame * 4096 < sh.fbPhys + sh.fbSize)
  }

  // ---------------------------------------------------------------- reading tables

  function EntryAt(mem: Mem, frame: nat, i: nat): Entry {
    if frame in mem && mem[frame].Table? && i < |mem[frame].entries| then mem[frame].entries[i] else EMPTY
  }

  // The entry that points to node n.
  function Link(mem: Mem, nodes: Nodes, n: Node): Entry {
    if Parent(n) in nodes then EntryAt(mem, nodes[Parent(n)], n.prefix % 512) else EMPTY
  }

  // The flat view: the leaf entry of page v, if it is mapped.
  function Leaf(mem: Mem, nodes: Nodes, v: nat): Option<Entry> {
    if Over(v, 1) in nodes && Present(EntryAt(mem, nodes[Over(v, 1)], v % 512))
    then Some(EntryAt(mem, nodes[Over(v, 1)], v % 512))
    else None
  }

  // ---------------------------------------------------------------- well-formed trees

  // Every node hangs below another one, up to the root.
  ghost predicate Hangs(nodes: Nodes, n: Node) {
    && n.level <= 4
    && (n.level == 4 ==> n == ROOT)
    && (n.level < 4 ==> Parent(n) in nodes)
    && (n.level == 3 ==> n.prefix < 256)
  }

  // Entry i of table n points to the right child, or to nothing when there is no child.
  ghost predicate EntryOk(mem: Mem, nodes: Nodes, sh: Sharing, n: Node, i: nat)
    requires n in nodes && n.level > 0
  {
    var e := EntryAt(mem, nodes[n], i);
    && (n.level > 1 ==> (Present(e) <==> Child(n, i) in nodes))
    && (n.level > 1 && Present(e) ==> e.frame == nodes[Child(n, i)])
    && (n.level == 1 ==> (Present(e) && !IsShared(sh, e.frame) <==> Child(n, i) in nodes))
    && (n.level == 1 && Present(e) && !IsShared(sh, e.frame) ==> e.frame == nodes[Child(n, i)])
    && (Present(e) ==> !e.low.huge)
  }

  // The flags of the entry pointing to table n include those of every entry of n.
  ghost predicate FlagsOk(mem: Mem, nodes: Nodes, n: Node)
    requires n in nodes
  {
    forall i: nat :: i < 512 && Present(EntryAt(mem, nodes[n], i)) ==>
      Covers(Link(mem, nodes, n).low, EntryAt(mem, nodes[n], i).low)
  }

  ghost predicate NodeOk(mem: Mem, nodes: Nodes, sh: Sharing, n: Node)
    requires n in nodes
  {
    && Hangs(nodes, n)
    && nodes[n] in mem
    && !IsShared(sh, nodes[n])
    && (n.level == 0 ==> IsPage(mem[nodes[n]]))
    && (n.level > 0 ==> IsTable(mem[nodes[n]]) && forall i: nat :: i < Width(n) ==> EntryOk(mem, nodes, sh, n, i))
    && (0 < n.level < 4 ==> FlagsOk(mem, nodes, n))
    && (n.level == 4 ==> KernelHalf(mem[nodes[n]], sh))
  }

  ghost predicate KernelHalf(f: Frame, sh: Sharing) {
    f.Table? && |f.entries| == |sh.kernel| == 512 && forall i :: 256 <= i < 512 ==> f.entries[i] == sh.kernel[i]
  }

  // The tables in memory are exactly the tree `nodes`.
  ghost predicate TreeOk(mem: Mem, nodes: Nodes, sh: Sharing) {
    && ROOT in nodes
    && forall n {:trigger NodeOk(mem, nodes, sh, n)} :: n in nodes ==> NodeOk(mem, nodes, sh, n)
  }

  predicate Distinct(nodes: Nodes, m: Node, n: Node) {
    m in nodes && n in nodes && m != n ==> nodes[m] != nodes[n]
  }

  ghost predicate Injective(nodes: Nodes) {
    forall m, n {:trigger Distinct(nodes, m, n)} :: Distinct(nodes, m, n)
  }

  // ---------------------------------------------------------------- the hardware's and vmm_resolve's walk

  // The entries met on the way to page v, from the root down to level `level`; None once one is absent.
  function Walk(mem: Mem, root: nat, v: nat, level: nat): Option<Entry>
    requires level <= 3
    decreases 3 - level
  {
    if level == 3 then
      var e := EntryAt(mem, root, Up(v, 3) % 512);
      if Present(e) then Some(e) else None
    else
      match Walk(mem, root, v, level + 1)
      case None => None
      case Some(above) =>
        var e := EntryAt(mem, above.frame, Up(v, level) % 512);
        if Present(e) then Some(e) else None
  }

  // In a well-formed tree the walk reaches the node of each level iff that node exists.
  lemma {:induction false} WalkFollowsNodes(mem: Mem, nodes: Nodes, sh: Sharing, v: nat, level: nat)
    requires TreeOk(mem, nodes, sh)
    requires 1 <= level <= 3 && v < USER_PAGES
    ensures Walk(mem, nodes[ROOT], v, level).Some? <==> Over(v, level) in nodes
    ensures Over(v, level) in nodes ==>
      var w := Walk(mem, nodes[ROOT], v, level);
      w.Some? && w.value == Link(mem, nodes, Over(v, level)) && w.value.frame == nodes[Over(v, level)]
    decreases 3 - level
  {
    var n := Over(v, level + 1);
    var i := Up(v, level) % 512;
    UpStep(v, level);
    assert Child(n, i) == Over(v, level);
    assert Parent(Over(v, level)) == n;
    assert Over(v, level) in nodes ==> n in nodes by {
      if Over(v, level) in nodes {
        assert NodeOk(mem, nodes, sh, Over(v, level));
      }
    }
    if level == 3 {
      assert n == ROOT;
    } else {
      WalkFollowsNodes(mem, nodes, sh, v, level + 1);
    }
    if n in nodes {
      assert NodeOk(mem, nodes, sh, n);
      assert EntryOk(mem, nodes, sh, n, i);
    }
  }

  // The leaf that the walk finds is the leaf of the flat view.
  lemma WalkFindsLeaf(mem: Mem, nodes: Nodes, sh: Sharing, v: nat)
    requires TreeOk(mem, nodes, sh) && v < USER_PAGES
    ensures Walk(mem, nodes[ROOT], v, 0) == Leaf(mem, nodes, v)
  {
    WalkFollowsNodes(mem, nodes, sh, v, 1);
  }

  // Flags only accumulate upwards: every entry on the way to a mapped page has the leaf's flags.
  lemma WalkCoversLeaf(mem: Mem, nodes: Nodes, sh: Sharing, v: nat)
    requires TreeOk(mem, nodes, sh) && v < USER_PAGES
    requires Leaf(mem, nodes, v).Some?
    ensures forall l :: 1 <= l <= 3 ==> Walk(mem, nodes[ROOT], v, l).Some?
    ensures forall l :: 1 <= l <= 3 ==> Covers(Walk(mem, nodes[ROOT], v, l).value.low, Leaf(mem, nodes, v).value.low)
    ensures forall l :: 1 <= l <= 3 ==> !Walk(mem, nodes[ROOT], v, l).value.low.huge
  {
    var low := Leaf(mem, nodes, v).value.low;
    assert Over(v, 1) in nodes;
    assert NodeOk(mem, nodes, sh, Over(v, 1)) && FlagsOk(mem, nodes, Over(v, 1));
    assert Covers(Link(mem, nodes, Over(v, 1)).low, low);
    assert Parent(Over(v, 1)) == Over(v, 2) && Over(v, 2) in nodes;
    assert NodeOk(mem, nodes, sh, Over(v, 2)) && FlagsOk(mem, nodes, Over(v, 2));
    assert Child(Over(v, 2), Up(v, 1) % 512) == Over(v, 1);
    assert EntryOk(mem, nodes, sh, Over(v, 2), Up(v, 1) % 512);
    assert Covers(Link(mem, nodes, Over(v, 2)).low, Link(mem, nodes, Over(v, 1)).low);
    assert Parent(Over(v, 2)) == Over(v, 3) && Over(v, 3) in nodes;
    assert NodeOk(mem, nodes, sh, Over(v, 3)) && FlagsOk(mem, nodes, Over(v, 3));
    assert Child(Over(v, 3), Up(v, 2) % 512) == Over(v, 2);
    assert EntryOk(mem, nodes, sh, Over(v, 3), Up(v, 2) % 512);
    assert Covers(Link(mem, nodes, Over(v, 3)).low, Link(mem, nodes, Over(v, 2)).low);
    assert Parent(Over(v, 3)) == ROOT;
    assert NodeOk(mem, nodes, sh, ROOT);
    assert Child(ROOT, Up(v, 3) % 512) == Over(v, 3);
    assert EntryOk(mem, nodes, sh, ROOT, Up(v, 3) % 512);
    WalkFollowsNodes(mem, nodes, sh, v, 1);
    WalkFollowsNodes(mem, nodes, sh, v, 2);
    WalkFollowsNodes(mem, nodes, sh, v, 3);
    CoversTrans(Link(mem, nodes, Over(v, 2)).low, Link(mem, nodes, Over(v, 1)).low, low);
    CoversTrans(Link(mem, nodes, Over(v, 3)).low, Link(mem, nodes, Over(v, 2)).low, low);
    forall l | 1 <= l <= 3
      ensures Walk(mem, nodes[ROOT], v, l).Some?
      ensures Covers(Walk(mem, nodes[ROOT], v, l).value.low, low)
      ensures !Walk(mem, nodes[ROOT], v, l).value.low.huge
    {
      assert l == 1 || l == 2 || l == 3;
    }
  }

  lemma CoversTrans(a: Flags, b: Flags, c: Flags)
    requires Covers(a, b) && Covers(b, c)
    ensures Covers(a, c)
  {
  }

  // No entry on the way down is a huge page, mapped below or not.
  lemma PresentPath(mem: Mem, nodes: Nodes, sh: Sharing, v: nat)
    requires TreeOk(mem, nodes, sh) && v < USER_PAGES
    ensures forall l :: 1 <= l <= 3 && Walk(mem, nodes[ROOT], v, l).Some? ==>
      !Walk(mem, nodes[ROOT], v, l).value.low.huge
  {
    forall l | 1 <= l <= 3 && Walk(mem, nodes[ROOT], v, l).Some?
      ensures !Walk(mem, nodes[ROOT], v, l).value.low.huge
    {
      WalkFollowsNodes(mem, nodes, sh, v, l);
      UpStep(v, l);
      assert NodeOk(mem, nodes, sh, Over(v, l));
      assert Child(Over(v, l + 1), Up(v, l) % 512) == Over(v, l);
      assert NodeOk(mem, nodes, sh, Over(v, l + 1));
      assert EntryOk(mem, nodes, sh, Over(v, l + 1), Up(v, l) % 512);
    }
  }

  // ---------------------------------------------------------------- translation with access rights

  datatype Translation = Translation(phys: nat, flags: Flags)

  // The flags of an entry, with write and user only if every entry above has them too.
  function Restrict(above: Flags, low: Flags): Flags {
    low.(write := low.write && above.write, user := low.user && above.user)
  }

  // Address translation as the processor does it, for tables in any state: the walk stops early at a huge page,
  // and a page is writable or open to user code only if all entries on the way allow it.
  function Translate(mem: Mem, root: nat, virt: nat): Option<Translation> {
    var v := virt / 4096;
    var e4 := EntryAt(mem, root, Up(v, 3) % 512);
    if !Present(e4) then None else
    var e3 := EntryAt(mem, e4.frame, Up(v, 2) % 512);
    if !Present(e3) then None else
    var r3 := Restrict(e4.low, e3.low);
    if e3.low.huge then Some(Translation(Address(e3.frame - e3.frame % 0x40000) + virt % 0x4000_0000, r3)) else
    var e2 := EntryAt(mem, e3.frame, Up(v, 1) % 512);
    if !Present(e2) then None else
    var r2 := Restrict(r3, e2.low);
    if e2.low.huge then Some(Translation(Address(e2.frame - e2.frame % 512) + virt % 0x20_0000, r2)) else
    var e1 := EntryAt(mem, e2.frame, v % 512);
    if !Present(e1) then None else
    Some(Translation(Address(e1.frame) + virt % 4096, Restrict(r2, e1.low)))
  }

  // In a tree built by the kernel, translation is lookup in the flat view, and the rights are the leaf's own.
  lemma TranslateIsLookup(mem: Mem, nodes: Nodes, sh: Sharing, virt: nat)
    requires TreeOk(mem, nodes, sh) && virt / 4096 < USER_PAGES
    ensures Translate(mem, nodes[ROOT], virt) ==
      match Leaf(mem, nodes, virt / 4096)
      case None => None
      case Some(e) => Some(Translation(Address(e.frame) + virt % 4096, e.low))
  {
    var v := virt / 4096;
    var root := nodes[ROOT];
    WalkFindsLeaf(mem, nodes, sh, v);
    PresentPath(mem, nodes, sh, v);
    if Leaf(mem, nodes, v).Some? {
      WalkCoversLeaf(mem, nodes, sh, v);
      assert Walk(mem, root, v, 3).Some? && Walk(mem, root, v, 2).Some? && Walk(mem, root, v, 1).Some?;
      RestrictCovered(Walk(mem, root, v, 3).value.low, Walk(mem, root, v, 2).value.low, Walk(mem, root, v, 1).value.low,
                      Leaf(mem, nodes, v).value.low);
    } else {
      assert Walk(mem, root, v, 2).Some? ==> Walk(mem, root, v, 3).Some?;
    }
  }

  lemma RestrictCovered(e4: Flags, e3: Flags, e2: Flags, e1: Flags)
    requires Covers(e4, e1) && Covers(e3, e1) && Covers(e2, e1)
    ensures Restrict(Restrict(Restrict(e4, e3), e2), e1) == e1
  {
  }
}
